/** The queue adapter: a FIFO over a doubly linked list. Values enter at the list's head and
    leave from its tail, and the queue's own `size` is copied from the list's after every
    enqueue and dequeue. */
module Queues {
  import opened Wrappers
  import opened Lists

  class Queue<T> {
    var queue: List<T>
    var size: nat
    ghost var Repr: set<object>

    ghost predicate Valid()
      reads this, Repr
    {
      this in Repr && queue in Repr && queue.Repr <= Repr && this !in queue.Repr
      && queue.Valid() && size == queue.size
    }

    /** The queued values, newest first: the front of the queue is the last one. */
    ghost function Contents(): seq<T>
      reads this, Repr
      requires Valid()
    {
      queue.elements
    }

    /** AQueueCreate: a queue over a new empty list. */
    constructor ()
      ensures Valid() && fresh(Repr) && Contents() == [] && size == 0
    {
      queue := new List();
      size := 0;
      new;
      Repr := {this} + queue.Repr;
    }

    /** AQueueClear: the list's clear hands every value to the destructor (`freed`, newest
        first) and the size is reset. */
    method Clear(hasFreeValue: bool) returns (freed: seq<T>)
      requires Valid()
      modifies Repr
      ensures Valid() && Repr <= old(Repr) && Contents() == [] && size == 0
      ensures freed == if hasFreeValue then old(Contents()) else []
    {
      freed := queue.Clear(hasFreeValue);
      size := 0;
      Repr := {this} + queue.Repr;
    }

    /** AQueueEnqueue: prepend to the list and copy its size. `node` is the new list node
        that holds the value, which the C returns. */
    method Enqueue(value: T) returns (node: Node<T>)
      requires Valid()
      modifies Repr
      ensures Valid() && fresh(Repr - old(Repr))
      ensures Contents() == [value] + old(Contents()) && size == old(size) + 1
      ensures fresh(node) && node in Repr && queue.nodes == [node] + old(queue.nodes)
    {
      node := queue.Prepend(value);
      size := queue.size;
      Repr := Repr + queue.Repr;
    }

    /** AQueueFront: the list's last value while `size > 0`, else None. */
    method Front() returns (r: Option<T>)
      requires Valid()
      ensures r.Some? <==> Contents() != []
      ensures r.Some? ==> r.value == Contents()[|Contents()| - 1]
    {
      r := None;
      if size > 0 {
        r := queue.Last();
      }
    }

    /** AQueueDequeue: pop the list's last value while `size > 0` and copy the size; None
        and no change on an empty queue. */
    method Dequeue() returns (r: Option<T>)
      requires Valid()
      modifies Repr
      ensures Valid() && Repr <= old(Repr)
      ensures old(Contents()) == [] ==> r == None && Contents() == []
      ensures old(Contents()) != [] ==>
                r == Some(old(Contents())[|old(Contents())| - 1])
                && Contents() == old(Contents())[..|old(Contents())| - 1]
      ensures size == |Contents()|
    {
      r := None;
      if size > 0 {
        r := queue.PopLast();
        size := queue.size;
      }
    }
  }

  /** Values leave in the order they entered. */
  method FifoOrder<T>(a: T, b: T) returns (first: Option<T>, second: Option<T>, third: Option<T>)
    ensures first == Some(a) && second == Some(b) && third == None
  {
    var q := new Queue<T>();
    var _ := q.Enqueue(a);
    var _ := q.Enqueue(b);
    first := q.Dequeue();
    second := q.Dequeue();
    third := q.Dequeue();
  }
}
