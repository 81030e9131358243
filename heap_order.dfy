/** Level-order addressing of a complete m-ary tree, the heap-order invariant
    over it, and the facts about single swaps that sift-up and sift-down rest on.
    Everything here is over plain sequences and an explicit priority relation
    `prio`, where `prio(a, b)` means "a has priority over b". */
module HeapOrder {

  /** `a` has priority over `b`. The laws of the relation below are stated over
      this name rather than over `prio` itself, so that the solver applies them
      only where a proof asks for them through the lemmas that follow. */
  predicate Outranks<T>(prio: (T, T) -> bool, a: T, b: T) {
    prio(a, b)
  }

  /** The priority relation is a strict weak order: irreflexive, transitive,
      and "does not have priority over" is transitive too. */
  ghost predicate StrictWeakOrder<T(!new)>(prio: (T, T) -> bool) {
    && (forall a :: !Outranks(prio, a, a))
    && (forall a, b, c :: Outranks(prio, a, b) && Outranks(prio, b, c) ==> Outranks(prio, a, c))
    && (forall a, b, c :: !Outranks(prio, a, b) && !Outranks(prio, b, c) ==> !Outranks(prio, a, c))
  }

  lemma Irreflexive<T(!new)>(prio: (T, T) -> bool, a: T)
    requires StrictWeakOrder(prio)
    ensures !prio(a, a)
  {
    assert !Outranks(prio, a, a);
  }

  lemma Transitive<T(!new)>(prio: (T, T) -> bool, a: T, b: T, c: T)
    requires StrictWeakOrder(prio)
    ensures prio(a, b) && prio(b, c) ==> prio(a, c)
  {
    assert Outranks(prio, a, b) && Outranks(prio, b, c) ==> Outranks(prio, a, c);
  }

  lemma NotAboveTransitive<T(!new)>(prio: (T, T) -> bool, a: T, b: T, c: T)
    requires StrictWeakOrder(prio)
    ensures !prio(a, b) && !prio(b, c) ==> !prio(a, c)
  {
    assert !Outranks(prio, a, b) && !Outranks(prio, b, c) ==> !Outranks(prio, a, c);
  }

  lemma Asymmetric<T(!new)>(prio: (T, T) -> bool, a: T, b: T)
    requires StrictWeakOrder(prio)
    ensures prio(a, b) ==> !prio(b, a)
  {
    Transitive(prio, a, b, a);
    Irreflexive(prio, a);
  }

  /** Index of the parent of the non-root node `i`; it sits strictly before `i`. */
  function Parent(i: nat, m: nat): (p: nat)
    requires 0 < i && 1 <= m
    ensures p < i
  {
    DivBelow(i - 1, m);
    (i - 1) / m
  }

  lemma DivBelow(n: nat, m: nat)
    requires 1 <= m
    ensures n / m <= n
  {
    var q := n / m;
    assert q * m <= n;
    MulMono(1, m, q);
  }

  /** Index of the `k`-th child (counting from 0) of node `i`. */
  function Child(i: nat, k: nat, m: nat): (c: nat) {
    i * m + 1 + k
  }

  /** The leaf test of sift-down: among `n >= 2` elements a node has no child
      exactly when it lies after the last internal node, the parent of the
      last slot. */
  lemma LeafTestIsLastInternal(n: nat, m: nat, index: nat)
    requires 2 <= n && 1 <= m
    ensures Child(index, 0, m) >= n <==> index > Parent(n - 1, m)
  {
    var p, r := (n - 2) / m, (n - 2) % m;
    assert n - 2 == p * m + r && 0 <= r < m;
    if index > p {
      MulMono(p + 1, index, m);
      assert (p + 1) * m == p * m + m;
    } else {
      MulMono(index, p, m);
    }
  }

  /** The two index formulas agree: `c` lies among the `m` children of `i`
      exactly when `i` is the parent of `c`. */
  lemma {:induction false} ParentChild(c: nat, i: nat, m: nat)
    requires 0 < c && 1 <= m
    ensures Parent(c, m) == i <==> Child(i, 0, m) <= c < Child(i, m, m)
  {
    var p, k := (c - 1) / m, (c - 1) % m;
    assert c - 1 == p * m + k && 0 <= k < m;
    if p < i {
      MulLess(p, i, m);
    } else if i < p {
      MulLess(i, p, m);
    }
  }

  lemma MulLess(a: nat, b: nat, m: nat)
    requires a < b
    ensures a * m + m <= b * m
  {
    MulMono(a + 1, b, m);
    assert (a + 1) * m == a * m + m;
  }

  lemma {:induction false} MulMono(x: nat, y: nat, m: nat)
    requires x <= y
    ensures x * m <= y * m
    decreases y - x
  {
    if x < y {
      MulMono(x, y - 1, m);
      assert y * m == (y - 1) * m + m;
    }
  }

  /** The heap-order invariant: no element has priority over its parent. */
  predicate HeapOrdered<T>(s: seq<T>, m: nat, prio: (T, T) -> bool)
    requires 1 <= m
  {
    forall i {:trigger Parent(i, m)} :: 0 < i < |s| ==> !prio(s[i], s[Parent(i, m)])
  }

  /** Children of `k` do not outrank `k`'s parent (vacuous at the root). */
  predicate ChildrenBelowGrandparent<T>(s: seq<T>, m: nat, prio: (T, T) -> bool, k: nat)
    requires 1 <= m && k < |s|
  {
    k > 0 ==> forall c :: 0 < c < |s| && Parent(c, m) == k ==> !prio(s[c], s[Parent(k, m)])
  }

  /** Sift-up state: the order holds everywhere except between `k` and its parent. */
  predicate OrderedExceptUp<T>(s: seq<T>, m: nat, prio: (T, T) -> bool, k: nat)
    requires 1 <= m && k < |s|
  {
    && (forall i {:trigger Parent(i, m)} :: 0 < i < |s| && i != k ==> !prio(s[i], s[Parent(i, m)]))
    && ChildrenBelowGrandparent(s, m, prio, k)
  }

  /** Sift-down state: the order holds everywhere except between `k` and its children. */
  predicate OrderedExceptDown<T>(s: seq<T>, m: nat, prio: (T, T) -> bool, k: nat)
    requires 1 <= m && k < |s|
  {
    && (forall i {:trigger Parent(i, m)} :: 0 < i < |s| && Parent(i, m) != k ==> !prio(s[i], s[Parent(i, m)]))
    && ChildrenBelowGrandparent(s, m, prio, k)
  }

  /** Exchange of the elements at `i` and `j`: a permutation that moves only those two. */
  function Swap<T>(s: seq<T>, i: nat, j: nat): (r: seq<T>)
    requires i < |s| && j < |s|
    ensures |r| == |s| && r[i] == s[j] && r[j] == s[i]
    ensures forall k :: 0 <= k < |s| && k != i && k != j ==> r[k] == s[k]
    ensures multiset(r) == multiset(s)
  {
    s[i := s[j]][j := s[i]]
  }

  /** In a heap, no element has priority over the element at the root, nor over
      any ancestor: by induction along the parent chain. */
  lemma {:induction false} RootDominates<T(!new)>(s: seq<T>, m: nat, prio: (T, T) -> bool, i: nat)
    requires 1 <= m && StrictWeakOrder(prio) && HeapOrdered(s, m, prio) && i < |s|
    ensures !prio(s[i], s[0])
    decreases i
  {
    if i == 0 {
      Irreflexive(prio, s[0]);
    } else {
      var p := Parent(i, m);

      RootDominates(s, m, prio, p);
      NotAboveTransitive(prio, s[i], s[p], s[0]);
    }
  }

  /** The root of a non-empty heap is a highest-priority element. */
  lemma TopIsHighest<T(!new)>(s: seq<T>, m: nat, prio: (T, T) -> bool)
    requires 1 <= m && StrictWeakOrder(prio) && HeapOrdered(s, m, prio) && |s| > 0
    ensures forall i :: 0 <= i < |s| ==> !prio(s[i], s[0])
  {
    forall i | 0 <= i < |s| ensures !prio(s[i], s[0]) {
      RootDominates(s, m, prio, i);
    }
  }

  /** Appending to a heap leaves only the new last slot out of order. */
  lemma AppendExceptUp<T>(s: seq<T>, x: T, m: nat, prio: (T, T) -> bool)
    requires 1 <= m && HeapOrdered(s, m, prio)
    ensures OrderedExceptUp(s + [x], m, prio, |s|)
  {
  }

  /** Sift-up stops in a heap: at the root, or once the element does not
      outrank its parent. */
  lemma ExceptUpDone<T>(s: seq<T>, m: nat, prio: (T, T) -> bool, k: nat)
    requires 1 <= m && k < |s| && OrderedExceptUp(s, m, prio, k)
    requires k == 0 || !prio(s[k], s[Parent(k, m)])
    ensures HeapOrdered(s, m, prio)
  {
  }

  /** One sift-up step: swapping `k` with a parent it outranks moves the
      disorder one level up. */
  lemma SwapUpStep<T(!new)>(s: seq<T>, m: nat, prio: (T, T) -> bool, k: nat)
    requires 1 <= m && StrictWeakOrder(prio) && 0 < k < |s| && OrderedExceptUp(s, m, prio, k)
    requires prio(s[k], s[Parent(k, m)])
    ensures Parent(k, m) < k
    ensures OrderedExceptUp(Swap(s, k, Parent(k, m)), m, prio, Parent(k, m))
  {
    SwapUpOrdered(s, m, prio, k);
    SwapUpGrandparent(s, m, prio, k);
  }

  lemma SwapUpOrdered<T(!new)>(s: seq<T>, m: nat, prio: (T, T) -> bool, k: nat)
    requires 1 <= m && StrictWeakOrder(prio) && 0 < k < |s| && OrderedExceptUp(s, m, prio, k)
    requires prio(s[k], s[Parent(k, m)])
    ensures var p := Parent(k, m); var t := Swap(s, k, p);
      forall i {:trigger Parent(i, m)} :: 0 < i < |t| && i != p ==> !prio(t[i], t[Parent(i, m)])
  {
    var p := Parent(k, m);

    var t := Swap(s, k, p);
    forall i {:trigger Parent(i, m)} | 0 < i < |t| && i != p ensures !prio(t[i], t[Parent(i, m)]) {
      SwapUpAt(s, m, prio, k, i);
    }
  }

  lemma SwapUpAt<T(!new)>(s: seq<T>, m: nat, prio: (T, T) -> bool, k: nat, i: nat)
    requires 1 <= m && StrictWeakOrder(prio) && 0 < k < |s| && OrderedExceptUp(s, m, prio, k)
    requires prio(s[k], s[Parent(k, m)])
    requires 0 < i < |s| && i != Parent(k, m)
    ensures Parent(k, m) < k
    ensures var t := Swap(s, k, Parent(k, m)); !prio(t[i], t[Parent(i, m)])
  {
    var p := Parent(k, m);

    var t := Swap(s, k, p);
    var q := Parent(i, m);

    if i == k {
      // the old parent now sits below the element that outranked it
      Asymmetric(prio, s[k], s[p]);
    } else if q == k {
      assert !prio(s[i], s[p]);
    } else if q == p {
      // a sibling of k: it did not outrank s[p], which s[k] outranks
      Transitive(prio, s[i], s[k], s[p]);
    } else {
      assert t[i] == s[i] && t[q] == s[q];
    }
  }

  lemma SwapUpGrandparent<T(!new)>(s: seq<T>, m: nat, prio: (T, T) -> bool, k: nat)
    requires 1 <= m && StrictWeakOrder(prio) && 0 < k < |s| && OrderedExceptUp(s, m, prio, k)
    requires prio(s[k], s[Parent(k, m)])
    ensures Parent(k, m) < k
    ensures ChildrenBelowGrandparent(Swap(s, k, Parent(k, m)), m, prio, Parent(k, m))
  {
    var p := Parent(k, m);

    var t := Swap(s, k, p);
    if p > 0 {
      var g := Parent(p, m);

      assert !prio(s[p], s[g]);
      forall c | 0 < c < |t| && Parent(c, m) == p ensures !prio(t[c], t[g]) {
        if c != k {
          NotAboveTransitive(prio, s[c], s[p], s[g]);
        }
      }
    }
  }

  /** Whatever is left of a heap's elements is not above its old root. */
  lemma SubsetNotAboveRoot<T(!new)>(s: seq<T>, t: seq<T>, m: nat, prio: (T, T) -> bool)
    requires 1 <= m && StrictWeakOrder(prio) && HeapOrdered(s, m, prio) && |s| > 0
    requires multiset(t) <= multiset(s)
    ensures forall x :: x in t ==> !prio(x, s[0])
  {
    forall x | x in t ensures !prio(x, s[0]) {
      assert x in multiset(t);
      MemberNotAboveRoot(s, m, prio, x);
    }
  }

  /** Replacing the root of a heap by its last element and dropping the last
      slot leaves only the root out of order. */
  lemma ReplaceRootExceptDown<T>(s: seq<T>, m: nat, prio: (T, T) -> bool)
    requires 1 <= m && HeapOrdered(s, m, prio) && |s| >= 2
    ensures OrderedExceptDown(s[0 := s[|s| - 1]][..|s| - 1], m, prio, 0)
  {
  }

  /** Overwriting the root with the last element and dropping the last slot
      removes exactly one occurrence of the old root. */
  lemma ReplaceRootMultiset<T>(s: seq<T>)
    requires |s| >= 1
    ensures multiset(s[0 := s[|s| - 1]][..|s| - 1]) == multiset(s) - multiset{s[0]}
  {
    var n := |s|;
    if n == 1 {
      assert s == [s[0]];
    } else {
      assert s == [s[0]] + s[1..n - 1] + [s[n - 1]];
      assert s[0 := s[n - 1]][..n - 1] == [s[n - 1]] + s[1..n - 1];
    }
  }

  /** Any element of a heap, wherever it sits, is not above the root. */
  lemma MemberNotAboveRoot<T(!new)>(s: seq<T>, m: nat, prio: (T, T) -> bool, x: T)
    requires 1 <= m && StrictWeakOrder(prio) && HeapOrdered(s, m, prio) && x in s
    ensures !prio(x, s[0])
  {
    var i :| 0 <= i < |s| && s[i] == x;
    RootDominates(s, m, prio, i);
  }

  /** `b` is a child of `k` that no existing child of `k` outranks. */
  predicate IsBestChild<T>(s: seq<T>, m: nat, prio: (T, T) -> bool, k: nat, b: nat)
    requires 1 <= m
  {
    && 0 < b < |s| && Parent(b, m) == k
    && (forall c :: 0 < c < |s| && Parent(c, m) == k ==> !prio(s[c], s[b]))
  }

  /** Sift-down stops in a heap once the best child does not outrank the element. */
  lemma ExceptDownDone<T(!new)>(s: seq<T>, m: nat, prio: (T, T) -> bool, k: nat, b: nat)
    requires 1 <= m && StrictWeakOrder(prio) && k < |s| && OrderedExceptDown(s, m, prio, k)
    requires IsBestChild(s, m, prio, k, b) && !prio(s[b], s[k])
    ensures HeapOrdered(s, m, prio)
  {
    forall i | 0 < i < |s| && Parent(i, m) == k ensures !prio(s[i], s[k]) {
      NotAboveTransitive(prio, s[i], s[b], s[k]);
    }
  }

  /** Sift-down stops in a heap at a node without children. */
  lemma ExceptDownLeaf<T>(s: seq<T>, m: nat, prio: (T, T) -> bool, k: nat)
    requires 1 <= m && k < |s| && OrderedExceptDown(s, m, prio, k)
    requires Child(k, 0, m) >= |s|
    ensures HeapOrdered(s, m, prio)
  {
    forall i | 0 < i < |s| && Parent(i, m) == k ensures false {
      ParentChild(i, k, m);
    }
  }

  /** One sift-down step: swapping `k` with its best child, when that child
      outranks it, moves the disorder one level down. */
  lemma SwapDownStep<T(!new)>(s: seq<T>, m: nat, prio: (T, T) -> bool, k: nat, b: nat)
    requires 1 <= m && StrictWeakOrder(prio) && k < |s| && OrderedExceptDown(s, m, prio, k)
    requires IsBestChild(s, m, prio, k, b) && prio(s[b], s[k])
    ensures k < b
    ensures OrderedExceptDown(Swap(s, k, b), m, prio, b)
  {
    var t := Swap(s, k, b);
    forall i {:trigger Parent(i, m)} | 0 < i < |t| && Parent(i, m) != b ensures !prio(t[i], t[Parent(i, m)]) {
      SwapDownAt(s, m, prio, k, b, i);
    }
    forall c | 0 < c < |t| && Parent(c, m) == b ensures !prio(t[c], t[k]) {
      assert Parent(c, m) != k;
    }
  }

  lemma SwapDownAt<T(!new)>(s: seq<T>, m: nat, prio: (T, T) -> bool, k: nat, b: nat, i: nat)
    requires 1 <= m && StrictWeakOrder(prio) && k < |s| && OrderedExceptDown(s, m, prio, k)
    requires IsBestChild(s, m, prio, k, b) && prio(s[b], s[k])
    requires 0 < i < |s| && Parent(i, m) != b
    ensures var t := Swap(s, k, b); !prio(t[i], t[Parent(i, m)])
  {
    var t := Swap(s, k, b);
    var q := Parent(i, m);
    if i == b {
      // the old element now sits below the child that outranked it
      Asymmetric(prio, s[b], s[k]);
    } else if q == k {
      assert !prio(s[i], s[b]);
    } else if i == k {
      assert !prio(s[b], s[q]);
    } else {
      assert t[i] == s[i] && t[q] == s[q];
    }
  }
}
