# m-ary priority heap and LIFO stack

A Dafny model of two small in-memory containers written as C++ templates:

- `Heap` (heap.h): a priority queue kept as a complete m-ary tree in level
  order inside a growable vector. It is parameterised by a branching factor
  `m` (at least 2) and a strict "has priority over" relation. `push`
  appends and sifts up, `top` reads the root, `pop` replaces the root with
  the last element and sifts down, and `empty`, `size` and `height` are
  queries. `top` and `pop` throw an underflow error on an empty heap.
- `Stack` (stack.h): a LIFO stack over a dynamic array. `push` appends,
  `pop` and `top` act on the back and throw underflow when empty.

Layout:

- `errors.dfy`, module `Errors`: the underflow error and the `Result` and
  `Outcome` types that model a thrown exception.
- `heap_order.dfy`, module `HeapOrder`: the index arithmetic of the tree
  (`Parent(i) = (i - 1) / m`, `Child(i, k) = i * m + 1 + k`), the heap-order
  invariant ("no element has priority over its parent"), the strict weak
  order assumed of the relation, and the lemmas about one sift-up or
  sift-down swap.
- `heap.dfy`, module `MaryHeap`: class `Heap` with the heap's fields
  (`heap` for `heap_`, `count` for `size_`, constants `m` and `prio`) and
  its operations. Methods that change the heap carry `modifies this` and
  state the new contents through multisets and `Valid()`. The queries read
  and change nothing. It also holds the reference definition of `height`
  and a client, `Drain`, that shows in-order extraction.
- `heap_as_written.dfy`, module `HeapAsWritten`: the source's sift-up loop,
  best-child scan and leaf bound exactly as written. Each sits beside an
  input that breaks the heap order or reads past the end of the vector
  (see "## Findings").
- `stack.dfy`, module `LifoStack`: class `Stack` over a `seq` field, plus a
  push-then-pop client.

The priority relation is the constant field `prio: (T, T) -> bool`, which
`Valid()` requires to be a strict weak order. This means it is irreflexive
and transitive, and "does not have priority over" is transitive as well.
That is the assumption `std::less` and any sensible comparator meet.

## Deviations from the code as written

The code has several defects. The model follows the behaviour the
declarations and comments describe:

- `trickle_up` takes the parent of `loc` to be `loc / m` (heap.h:103, 108).
  That disagrees with the child formula `index * m + 1` (heap.h:194). The
  model uses `(loc - 1) / m`.
- The loop guard `parent >= 0` (heap.h:104) always holds for `size_t`. The
  model stops at the root. With an irreflexive relation the source also
  stops there, because the root is only ever compared with itself.
- In the best-child scan of `heapify_helper` (heap.h:196-204), `heap_[best_ch + 1]`
  is read without checking it against the size, and `best_ch` advances on
  every round. The model scans only the children below the size and picks
  the highest-ranked one, the leftmost among equals.
- `heapify_helper` recurses whether or not it swapped (heap.h:207-211). The
  model swaps and recurses only when the best child outranks the element,
  and otherwise stops.
- `pop` calls `heapify(0)` even when the heap has just become empty
  (heap.h:161-165), which reads past the end of the vector. The model treats
  removing the sole element as a plain removal.
- `heapify` passes `heapify_helper` a bound `leaf_start` (heap.h:171-185),
  and `heapify_helper` stops when `index > leaf_start` (heap.h:193). The
  bound is 0 when the height is 1. Otherwise it is 1 + m + ... + m^(h-1)
  for h = `height(size_)`, which is at least `size_`. So the base case
  never holds for an index inside the vector. Each sift-down goes past the
  leaves, and `heap_[best_ch]` (heap.h:207) is read past the end. This is
  listed under "## Findings". The model stops at a node with no child,
  by the test `Child(index, 0) >= count`, which is the same as
  `index > Parent(count - 1)`.
- The bodies of stack.h do not compile: they refer to an undefined `stack`
  member, call `pop_back(item)`, and `top` has no `return` (stack.h:39-70).
  The model follows the declared contract (stack.h:16-18).
- heap.h calls an undefined `comp` beside the member `comp_` (heap.h:104,
  207). The model has one relation, `prio`.

## Model

| member | source | states |
|---|---|---|
| `HeapOrder.Parent` | heap.h:103 | the parent index of a non-root node lies strictly before it |
| `HeapOrder.ParentChild` | heap.h:194 | `c` is one of the `m` children `i*m+1 .. i*m+m` of `i` exactly when `Parent(c) == i`: the parent and child formulas agree in both directions |
| `HeapOrder.Swap` | heap.h:106 | a swap exchanges two positions, leaves every other position alone and keeps the multiset of elements |
| `HeapOrder.RootDominates` | heap.h:36-41 | in a heap, no element has priority over the root, by induction up the parent chain |
| `HeapOrder.TopIsHighest` | heap.h:36-41 | the root of a non-empty heap is a highest-priority element: no stored element has priority over it |
| `HeapOrder.MemberNotAboveRoot` | heap.h:36-41 | any value stored in a heap, wherever it sits, does not have priority over the root |
| `HeapOrder.SubsetNotAboveRoot` | heap.h:161-165 | every element left after removing some elements of a heap is not above the old root, so later tops never outrank earlier ones |
| `HeapOrder.AppendExceptUp` | heap.h:94-97 | appending to a heap leaves the order broken at most between the new last slot and its parent |
| `HeapOrder.ExceptUpDone` | heap.h:104 | sift-up may stop in a heap when it reaches the root or the element no longer outranks its parent |
| `HeapOrder.SwapUpStep` | heap.h:104-109 | swapping an element with a parent it outranks moves the only disorder one level up, to the parent's position |
| `HeapOrder.ReplaceRootMultiset` | heap.h:161-163 | overwriting the root with the last element and dropping the last slot removes exactly one occurrence of the old root |
| `HeapOrder.ReplaceRootExceptDown` | heap.h:161-163 | after that replacement, the order is broken at most between the root and its children |
| `HeapOrder.ExceptDownLeaf` | heap.h:193 | sift-down may stop at a node with no child below the size |
| `HeapOrder.ExceptDownDone` | heap.h:207-211 | sift-down may stop once the best child does not outrank the element |
| `HeapOrder.SwapDownStep` | heap.h:207-211 | swapping an element with its best child, when that child outranks it, moves the only disorder one level down |
| `MaryHeap.HeightIsLeast` | heap.h:214-227 | for n >= 2 the height is the least h with m^(h-1) >= n, and it is unique |
| `MaryHeap.HeightAtBoundaries` | heap.h:214-227 | height(0) = 0, height(1) = 1, height(m) = 2 and height(m+1) = 3, and no other value qualifies |
| `MaryHeap.Heap.constructor` | heap.h:82-84 | a new heap is empty and keeps the given branching factor and relation |
| `MaryHeap.Heap.Push` | heap.h:92-98 | push adds one to the size and adds exactly `item` to the multiset of elements, and the heap order still holds afterwards |
| `MaryHeap.Heap.TrickleUp` | heap.h:101-110 | sift-up from a slot that may outrank its parent restores the heap order and only permutes the elements |
| `MaryHeap.Heap.Top` | heap.h:129-145 | underflow exactly when the heap is empty; otherwise returns `heap_[0]`, which no stored element outranks; changes nothing |
| `MaryHeap.Heap.Pop` | heap.h:151-166 | underflow and no change on an empty heap; otherwise the size drops by one, exactly one occurrence of the old top is removed, the order holds and nothing left outranks the old top |
| `MaryHeap.Heap.Heapify` | heap.h:168-212 | sift-down from a node whose children may outrank it restores the heap order and only permutes the elements |
| `MaryHeap.Heap.BestChild` | heap.h:194-204 | returns a child of the node below the size that no child outranks, and that outranks every child to its left |
| `MaryHeap.Heap.Empty` | heap.h:113-116 | true exactly when the size is 0 |
| `MaryHeap.Heap.Size` | heap.h:120-123 | the vector's length, which always equals the `size_` counter |
| `MaryHeap.Heap.Height` | heap.h:214-227 | the loop that multiplies by m computes the height as characterised above; a negative count gives 1, as the source's `int` parameter does |
| `MaryHeap.Drain` | heap.h:35-48 | reading `top` and popping until empty yields exactly the heap's elements, in priority order: no later one outranks an earlier one |
| `LifoStack.Stack.constructor` | stack.h:25-28 | a new stack is empty |
| `LifoStack.Stack.Empty` | stack.h:36-41 | true exactly when the size is 0 |
| `LifoStack.Stack.Size` | stack.h:44-48 | the number of stored elements |
| `LifoStack.Stack.Push` | stack.h:51-55 | appends `item` at the back; everything below it is unchanged |
| `LifoStack.Stack.Pop` | stack.h:58-63 | underflow and no change exactly when empty; otherwise removes only the last element, and every earlier element stays in place |
| `LifoStack.Stack.Top` | stack.h:66-71 | underflow exactly when empty; otherwise the last element; changes nothing |
| `LifoStack.PushThenPop` | stack.h:51-63 | after `push(x)` the top is `x` and the size has grown by one, and a following `pop` restores the previous contents |
| `HeapAsWritten.SiftUpAsWritten` | heap.h:101-110 | the sift-up loop as written, with parent `loc / m`, still only permutes the elements, for any relation that never ranks an element above itself |
| `HeapAsWritten.PushAsWritten` | heap.h:92-98 | push as written adds exactly the item to the multiset |
| `HeapAsWritten.PushAsWrittenBreaksOrder` | heap.h:103 | pushing 5 onto the binary min-heap [0, 10, 1, 11] as written leaves [0, 10, 1, 11, 5], where 5 sits below 10 |
| `HeapAsWritten.ScanAsWritten` | heap.h:194-204 | the best-child scan as written advances by at least one index per round, so it ends at least m - 1 places right of the leftmost child; on an empty vector the unsigned `size_ - 1` wraps, the guard holds, and the first round reads past the end |
| `HeapAsWritten.PopSoleScanReadsPastEnd` | heap.h:161-165 | popping the sole element leaves an empty vector; `heapify(0)` then scans from index 1, and its first round reads past the end |
| `HeapAsWritten.ScanPastEndAdvances` | heap.h:196-203 | once `best_ch` is at or past the end of a non-empty vector, each round only advances it by one |
| `HeapAsWritten.LeafScanReadsPastEnd` | heap.h:194-207 | at a leaf of a non-empty heap, the scan chooses an index at or past the end, which `heap_[best_ch]` then reads |
| `HeapAsWritten.LeafStartAsWritten` | heap.h:171-185 | the loop computes the bound 0 at height 1, and otherwise 1 + m + ... + m^(h-1); for two or more elements the bound is at least the size, so `index > leaf_start` never holds inside the vector |
| `HeapAsWritten.LeafStartMissesLeaf` | heap.h:171-193 | three elements with m = 2 give height 3 and bound 7, although index 1 is already a leaf |
| `HeapAsWritten.ParentAsWritten` | heap.h:103-108 | the parent as sift-up computes it, `loc / m`, lies before any non-root slot, so the as-written loop ends |
| `HeapAsWritten.PushAsWrittenStays` | heap.h:92-110 | a push as written leaves the item in the new last slot when the heap is empty or the item does not outrank the element at `ParentAsWritten` |
| `HeapAsWritten.PushTraceAsWritten` | heap.h:92-110 | pushing 0, 1, 2, 3 as written onto an empty binary min-heap gives [0, 1, 2, 3] |
| `HeapAsWritten.PopTraceReadsPastEnd` | heap.h:161-211 | popping [0, 1, 2, 3] with m = 2 and `std::less<int>` yields [3, 1, 2]; the sift-down swaps [3, 1, 2] to [2, 1, 3], skips the base case at index 2 (2 <= 7), and its scan ends at index 6, past the end of a three-element vector |
| `HeapAsWritten.LessThanIsStrictWeakOrder` | heap.h:8 | the default `std::less<int>` is a strict weak order |
| `HeapOrder.LeafTestIsLastInternal` | heap.h:193 | among n >= 2 elements, a node has no child exactly when it lies after the last internal node, `Parent(n - 1)`: the base case the bound was evidently meant to give |
| `HeapAsWritten.ScanAsWrittenMissesBest` | heap.h:194-204 | on [9, 1, 2] with m = 2 the scan as written picks index 2, although index 1 outranks it |
| `HeapAsWritten.SwapWithScannedChildBreaksOrder` | heap.h:207-209 | swapping the root with that child leaves [2, 1, 9], which is out of order |

## Findings

| source | as written | input that shows it | evidently intended | confidence | as-written member | corrected member |
|---|---|---|---|---|---|---|
| heap.h:103-108 | the parent of `loc` is `loc / m` | m = 2, `std::less<int>`, push 5 onto [0, 10, 1, 11], which is a heap under the child formula of heap.h:194: 5 is compared with index 2 (value 1) and stays at index 4, below index 1 (value 10). As-written pushes alone cannot build this start state, because they keep the order over their own `loc / m` tree, and `top` stays correct. The disorder shows once `heapify_helper` walks the child-formula tree | parent `(loc - 1) / m`, the inverse of the child formula at heap.h:194 | high (proved; not executed) | `HeapAsWritten.ParentAsWritten`, `HeapAsWritten.SiftUpAsWritten`, `HeapAsWritten.PushAsWrittenBreaksOrder` | `MaryHeap.Heap.TrickleUp` (with `HeapOrder.Parent`, `HeapOrder.ParentChild`) |
| heap.h:196-204 | `best_ch` advances on every round | m = 2, `std::less<int>`, [9, 1, 2] after `pop` moved 9 to the root: the scan chooses index 2 although index 1 (value 1) outranks it, and the swap gives [2, 1, 9] | scan the existing children and choose the highest-ranked one | high (proved; not executed) | `HeapAsWritten.ScanAsWritten`, `HeapAsWritten.ScanAsWrittenMissesBest` | `MaryHeap.Heap.BestChild` (used by `MaryHeap.Heap.Heapify`) |
| heap.h:171-193 | `leaf_start` is 1 + m + ... + m^(h-1) for h = `height(size_)`, and recursion stops only when `index > leaf_start` | m = 2, `std::less<int>`: push 0, 1, 2, 3, then `pop`. This gives [3, 1, 2], and the root scan swaps it to [2, 1, 3]. The height is 3 and the bound is 7, so `heapify_helper(2, 7)` goes on from the leaf at index 2, and its scan ends at index 6, which heap.h:207 reads in a vector of size 3 | stop at the nodes after the last internal node `Parent(size_ - 1)`, i.e. at nodes without children | high (proved; not executed) | `HeapAsWritten.LeafStartAsWritten`, `HeapAsWritten.LeafStartMissesLeaf`, `HeapAsWritten.LeafScanReadsPastEnd`, `HeapAsWritten.PushTraceAsWritten`, `HeapAsWritten.PopTraceReadsPastEnd` | `MaryHeap.Heap.Heapify` (leaf test `Child(index, 0) >= count`, with `HeapOrder.LeafTestIsLastInternal`) |
| heap.h:161-165, 198 | `pop` of the sole element calls `heapify(0)` on an empty vector, where `size_ - 1` wraps and the guard holds | any m >= 2, a heap with one element, then `pop`: the scan reads `heap_[2]` and `heap_[1]` in a vector of size 0 | removing the sole element leaves an empty heap | high (proved; not executed) | `HeapAsWritten.ScanAsWritten`, `HeapAsWritten.PopSoleScanReadsPastEnd` | `MaryHeap.Heap.Pop` (sole element removed without sift-down) |

## Left out

- The leaf bound of `heapify` (heap.h:171-185) is modelled as written by `HeapAsWritten.LeafStartAsWritten`, over exact integers. The floating-point `pow` is not modelled: its values are exact at these sizes. The unused `leaf_end` and the no-op `leaf_end == 0` are not modelled either. The corrected heap does not use this bound. It stops at nodes with no child instead (see "## Findings").
- Overflow is not modelled. The model works over unbounded integers. In the source, `int i` in `height` (`i *= m_`, heap.h:222) and the `size_t` counters can wrap for huge sizes. The one wrap-around modelled is `size_ - 1` on an empty vector in the best-child guard (heap.h:198). `HeapAsWritten.ScanAsWritten` models it.
- The destructors and `clear()` (heap.h:86-89, stack.h:31-33) are not modelled. They only release memory and have no observable logic.
- Comparator functors are modelled as a total function value that is assumed to be a strict weak order. C++ callable semantics and the `std::less<T>` default are not modelled beyond that assumption. The constructor's default arguments (m = 2, `std::less`) are not modelled either: the constructor takes both values explicitly.
- `Stack` privately inherits from `std::vector` (stack.h:9). The model uses a `seq` field instead.
- The heap constructor does not check `m` (heap.h:82-84). The model requires `m >= 2` of its caller, because smaller values make the child addressing meaningless.
- The references returned by `top` are modelled as values. Aliasing them across later pushes and pops is not modelled.
- The as-written `heapify_helper` is modelled only up to its first read past the end of the vector. That read is undefined behaviour, and undefined behaviour has no value to model. The model covers the leaf bound (`HeapAsWritten.LeafStartAsWritten`) and the scan (`HeapAsWritten.ScanAsWritten`). It also shows the out-of-range read at a leaf (`HeapAsWritten.LeafScanReadsPastEnd`) and after popping the sole element (`HeapAsWritten.PopSoleScanReadsPastEnd`). The recursion past that point (heap.h:207-211) is not modelled.
