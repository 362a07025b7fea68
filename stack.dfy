/** The stack adapter: a LIFO over a vector, whose own `size` field is copied from the
    vector's after every push and pop. The top of the stack is the vector's last value. */
module Stacks {
  import opened Wrappers
  import opened Vectors

  class Stack<T(0)> {
    var stack: Vector<T>
    var size: nat

    /** The stack's `size` either mirrors the vector's or is 0: the vector's clear never
        resets the vector's own size, so after a clear the two disagree until the next
        push copies the vector's size back. */
    ghost predicate Valid()
      reads this, stack
    {
      stack.Valid() && (size == stack.size || size == 0)
    }

    ghost predicate Synced()
      reads this, stack
    {
      Valid() && size == stack.size
    }

    /** What pop and top can reach: the first `size` values of the vector, the top last. */
    ghost function Contents(): seq<T>
      reads this, stack, stack.values
      requires Valid()
    {
      stack.Elements()[..size]
    }

    /** AStackCreate: a new empty vector with the given capacity, or the default. */
    constructor (hint: Option<int>)
      ensures Synced() && fresh(stack) && fresh(stack.values)
      ensures Contents() == [] && stack.capacity == InitialCapacity(hint)
    {
      stack := new Vector(hint);
      new;
      size := stack.size;
    }

    /** AStackPush: append to the vector, then copy the vector's size. `slot` is the index
        of the pushed value in the vector's buffer, which the C returns as a pointer. */
    method Push(value: T) returns (slot: nat)
      requires Valid()
      modifies this, stack, stack.values
      ensures Synced() && stack == old(stack)
      ensures stack.values == old(stack.values) || fresh(stack.values)
      ensures stack.Elements() == old(stack.Elements()) + [value]
      ensures Contents() == old(stack.Elements()) + [value]
      ensures old(Synced()) ==> Contents() == old(Contents()) + [value]
      ensures slot == old(stack.size) && stack.values[slot] == value
    {
      slot := stack.Append(value);
      size := stack.size;
    }

    /** AStackTop: the last of the first `size` values, or None when `size` is 0. */
    method Top() returns (r: Option<T>)
      requires Valid()
      ensures r.Some? <==> Contents() != []
      ensures r.Some? ==> r.value == Contents()[|Contents()| - 1]
    {
      if size > 0 {
        r := stack.Get(size - 1);
      } else {
        r := None;
      }
    }

    /** AStackPop: remove and return the top value; None and no change when empty. */
    method Pop() returns (r: Option<T>)
      requires Valid()
      modifies this, stack, stack.values
      ensures Valid() && stack == old(stack) && stack.values == old(stack.values)
      ensures old(size) == 0 ==> r == None && size == 0 && stack.Elements() == old(stack.Elements())
      ensures old(size) > 0 ==> Synced() && r == Some(old(Contents())[old(size) - 1])
      ensures old(size) > 0 ==> Contents() == old(Contents())[..old(size) - 1]
    {
      r := None;
      if size > 0 {
        r := stack.Remove(size - 1);
        size := stack.size;
      }
    }

    /** AStackClear as written: the vector's clear frees the values but keeps the vector's
        size, and only the stack's size is reset. */
    method ClearAsWritten(hasFreeValue: bool) returns (freed: seq<T>)
      requires Valid()
      modifies this
      ensures Valid() && stack == old(stack) && size == 0 && Contents() == []
      ensures freed == (if hasFreeValue then stack.Elements() else [])
      ensures stack.size == old(stack.size)
    {
      freed := stack.ClearAsWritten(hasFreeValue);
      size := 0;
    }

    /** AStackClear over a vector clear that empties the vector. */
    method Clear(hasFreeValue: bool) returns (freed: seq<T>)
      requires Valid()
      modifies this, stack
      ensures Synced() && stack == old(stack) && stack.values == old(stack.values)
      ensures Contents() == [] && stack.Elements() == []
      ensures freed == if hasFreeValue then old(stack.Elements()) else []
    {
      freed := stack.Clear(hasFreeValue);
      size := 0;
    }
  }

  /** Two pushes come back in reverse order. */
  method LifoOrder<T(0)>(a: T, b: T) returns (first: Option<T>, second: Option<T>, third: Option<T>)
    ensures first == Some(b) && second == Some(a) && third == None
  {
    var s := new Stack<T>(None);
    var _ := s.Push(a);
    var _ := s.Push(b);
    first := s.Pop();
    second := s.Pop();
    third := s.Pop();
  }

  /** With the clear as written, a value pushed before the clear comes back out of the
      stack: push `a`, clear, push `b`, then two pops return `b` and the freed `a`. */
  method StaleValueAfterClearAsWritten<T(0)>(a: T, b: T) returns (first: Option<T>, second: Option<T>)
    ensures first == Some(b) && second == Some(a)
  {
    var s := new Stack<T>(None);
    var _ := s.Push(a);
    var _ := s.ClearAsWritten(false);
    var _ := s.Push(b);
    first := s.Pop();
    second := s.Pop();
  }

  /** With a clear that empties the vector the same sequence leaves only `b`. */
  method NoStaleValueAfterClear<T(0)>(a: T, b: T) returns (first: Option<T>, second: Option<T>)
    ensures first == Some(b) && second == None
  {
    var s := new Stack<T>(None);
    var _ := s.Push(a);
    var _ := s.Clear(false);
    var _ := s.Push(b);
    first := s.Pop();
    second := s.Pop();
  }
}
