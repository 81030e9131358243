/** The LIFO stack of stack.h, kept as a sequence whose last element is the top. */
module LifoStack {
  import opened Errors

  class Stack<T> {
    /** The elements, bottom first (the underlying dynamic array). */
    var items: seq<T>

    constructor ()
      ensures items == []
    {
      items := [];
    }

    /** Whether the stack holds no element. */
    method Empty() returns (b: bool)
      ensures b <==> |items| == 0
    {
      b := items == [];
    }

    /** The number of elements. */
    method Size() returns (n: nat)
      ensures n == |items|
    {
      n := |items|;
    }

    /** Puts `item` on top. */
    method Push(item: T)
      modifies this
      ensures items == old(items) + [item]
    {
      items := items + [item];
    }

    /** Removes the top element; underflow, and no change, when empty. */
    method Pop() returns (r: Outcome)
      modifies this
      ensures old(items) == [] <==> r == Fail(Underflow)
      ensures old(items) == [] ==> items == old(items)
      ensures old(items) != [] ==> items == old(items)[..|old(items)| - 1]
    {
      if items == [] {
        return Fail(Underflow);
      }
      items := items[..|items| - 1];
      r := Pass;
    }

    /** The top element; underflow when empty. */
    method Top() returns (r: Result<T>)
      ensures items == [] <==> r == Err(Underflow)
      ensures r.Ok? ==> r.value == items[|items| - 1]
    {
      if items == [] {
        return Err(Underflow);
      }
      r := Ok(items[|items| - 1]);
    }
  }

  /** A client of the stack's operations: a push followed by a pop leaves the
      stack as it was, and in between the pushed item is the top and the size
      has grown by one. */
  method PushThenPop<T>(s: Stack<T>, item: T)
    modifies s
    ensures s.items == old(s.items)
  {
    var before := s.Size();
    s.Push(item);
    var top := s.Top();
    assert top == Ok(item);
    var after := s.Size();
    assert after == before + 1;
    var empty := s.Empty();
    assert !empty;
    var r := s.Pop();
    assert r == Pass;
  }
}
