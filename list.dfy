/** The doubly linked list: heap nodes joined by `prev`/`next` references, with `head`,
    `tail` and a `size` counter in the list object. The ghost sequence `nodes` lists the
    nodes from head to tail and `elements` their values. */
module Lists {
  import opened Wrappers

  /** The first index of `x` in `s`. */
  ghost function IndexOf<X>(s: seq<X>, x: X): (k: nat)
    requires x in s
    ensures k < |s| && s[k] == x
    ensures forall j :: 0 <= j < k ==> s[j] != x
  {
    if s[0] == x then 0 else 1 + IndexOf(s[1..], x)
  }

  /** No element occurs twice (stated recursively, so that it unfolds only on demand). */
  ghost predicate Distinct<X>(s: seq<X>)
  {
    |s| == 0 || (s[0] !in s[1..] && Distinct(s[1..]))
  }

  lemma {:induction false} DistinctIff<X>(s: seq<X>)
    ensures Distinct(s) <==> forall i, j :: 0 <= i < j < |s| ==> s[i] != s[j]
  {
    if |s| > 0 {
      DistinctIff(s[1..]);
      if Distinct(s) {
        forall i, j | 0 <= i < j < |s|
          ensures s[i] != s[j]
        {
          assert s[j] == s[1..][j - 1];
          if i > 0 {
            assert s[i] == s[1..][i - 1];
          }
        }
      }
      if forall i, j :: 0 <= i < j < |s| ==> s[i] != s[j] {
        forall i, j | 0 <= i < j < |s[1..]|
          ensures s[1..][i] != s[1..][j]
        {
          assert s[1..][i] == s[i + 1] && s[1..][j] == s[j + 1];
        }
        forall j | 0 <= j < |s[1..]|
          ensures s[1..][j] != s[0]
        {
          assert s[1..][j] == s[j + 1];
        }
      }
    }
  }

  /** In a sequence without repeats the first index of the element at `i` is `i`. */
  lemma IndexOfDistinct<X>(s: seq<X>, i: nat)
    requires Distinct(s) && i < |s|
    ensures IndexOf(s, s[i]) == i
  {
    DistinctIff(s);
  }

  /** In a sequence without repeats no other index holds the element at `j`. */
  lemma DistinctAt<X>(s: seq<X>, j: nat)
    requires Distinct(s) && j < |s|
    ensures forall i :: 0 <= i < |s| && i != j ==> s[i] != s[j]
  {
    DistinctIff(s);
  }

  /** Two sequences without repeats and without a common element concatenate to one. */
  lemma DistinctConcat<X>(a: seq<X>, b: seq<X>)
    requires Distinct(a) && Distinct(b)
    requires forall x :: x in a ==> x !in b
    ensures Distinct(a + b)
  {
    DistinctIff(a);
    DistinctIff(b);
    DistinctIff(a + b);
    forall i, j | 0 <= i < j < |a + b|
      ensures (a + b)[i] != (a + b)[j]
    {
      if i < |a| && |a| <= j {
        assert (a + b)[i] in a && (a + b)[j] == b[j - |a|];
      }
    }
  }

  /** A new element inserted anywhere keeps a sequence without repeats. */
  lemma DistinctInsert<X>(s: seq<X>, k: nat, x: X)
    requires Distinct(s) && k <= |s| && x !in s
    ensures Distinct(s[..k] + [x] + s[k..])
  {
    DistinctSplit(s, k);
    assert Distinct([x]);
    assert forall y :: y in s[..k] ==> y in s;
    assert forall y :: y in s[k..] ==> y in s;
    DistinctConcat(s[..k], [x]);
    DistinctConcat(s[..k] + [x], s[k..]);
  }

  /** Both parts of a split sequence without repeats are without repeats and disjoint. */
  lemma DistinctSplit<X>(s: seq<X>, k: nat)
    requires Distinct(s) && k <= |s|
    ensures Distinct(s[..k]) && Distinct(s[k..])
    ensures forall x :: x in s[..k] ==> x !in s[k..]
  {
    DistinctIff(s);
    DistinctIff(s[..k]);
    DistinctIff(s[k..]);
    forall x | x in s[..k]
      ensures x !in s[k..]
    {
      var i :| 0 <= i < k && s[..k][i] == x;
      forall j | 0 <= j < |s| - k
        ensures s[k..][j] != x
      {
        assert s[k..][j] == s[k + j] && s[i] == x;
      }
    }
  }

  /** Dropping one element keeps a sequence without repeats, and the element is gone. */
  lemma DistinctRemove<X>(s: seq<X>, k: nat)
    requires Distinct(s) && k < |s|
    ensures Distinct(s[..k] + s[k + 1..]) && s[k] !in s[..k] + s[k + 1..]
  {
    DistinctSplit(s, k);
    DistinctSplit(s[k..], 1);
    assert s[k..][1..] == s[k + 1..];
    assert s[k..][..1] == [s[k]];
    forall x | x in s[..k]
      ensures x !in s[k + 1..]
    {
      assert x !in s[k..];
    }
    DistinctConcat(s[..k], s[k + 1..]);
    assert s[k] !in s[..k];
  }

  class Node<T> {
    var value: T
    var prev: Node?<T>
    var next: Node?<T>

    constructor (value: T)
      ensures this.value == value && prev == null && next == null
    {
      this.value := value;
      prev := null;
      next := null;
    }
  }

  class List<T> {
    var size: nat
    var head: Node?<T>
    var tail: Node?<T>
    ghost var nodes: seq<Node<T>>
    ghost var elements: seq<T>
    ghost var Repr: set<object>

    /** The chain structure: `nodes` are distinct, linked both ways from `head` to `tail`,
        and carry `elements`; Repr holds this list object and its nodes. */
    ghost predicate Linked()
      reads this, Repr
    {
      this in Repr
      && (forall i :: 0 <= i < |nodes| ==> nodes[i] in Repr)
      && |elements| == |nodes|
      && Distinct(nodes)
      && (forall i :: 0 <= i < |nodes| ==> nodes[i].value == elements[i])
      && (forall i :: 0 < i < |nodes| ==> nodes[i].prev == nodes[i - 1])
      && (forall i :: 0 <= i < |nodes| - 1 ==> nodes[i].next == nodes[i + 1])
      && (|nodes| > 0 ==> nodes[0].prev == null && nodes[|nodes| - 1].next == null)
      && head == (if |nodes| == 0 then null else nodes[0])
      && tail == (if |nodes| == 0 then null else nodes[|nodes| - 1])
    }

    /** A well-formed list also counts its nodes correctly. */
    ghost predicate Valid()
      reads this, Repr
    {
      Linked() && size == |nodes|
    }

    /** AListCreate: an empty list. */
    constructor ()
      ensures Valid() && Repr == {this} && nodes == [] && elements == []
    {
      size := 0;
      head, tail := null, null;
      nodes, elements := [], [];
      Repr := {this};
    }

    /** The node at `pos`, or the tail for a position past the end: the walk from the
        nearer end that valueAt, insertAt, replaceAt, removeAt and splitAt share. */
    method Walk(pos: nat) returns (node: Node<T>)
      requires Valid() && size > 0
      ensures node == nodes[if pos < size then pos else size - 1]
    {
      if pos < size / 2 {
        node := head;
        var i := 0;
        while i < pos
          invariant Valid() && 0 <= i <= pos < |nodes| && node == nodes[i]
        {
          assert nodes[i].next == nodes[i + 1];
          node := node.next;
          i := i + 1;
        }
      } else {
        node := tail;
        var i := size - 1;
        while i > pos
          invariant Valid() && (if pos < size then pos else size - 1) <= i < |nodes| && node == nodes[i]
        {
          assert nodes[i].prev == nodes[i - 1];
          node := node.prev;
          i := i - 1;
        }
      }
    }

    /** AListClear: every value goes to the destructor (`freed`, head to tail) and the
        list becomes empty. */
    method Clear(hasFreeValue: bool) returns (freed: seq<T>)
      requires Valid()
      modifies this
      ensures Valid() && Repr == {this} && elements == []
      ensures freed == if hasFreeValue then old(elements) else []
    {
      var node := head;
      ghost var i := 0;
      freed := [];
      while node != null
        invariant Valid() && 0 <= i <= |nodes| && (node == if i < |nodes| then nodes[i] else null)
        invariant freed == if hasFreeValue then elements[..i] else []
        decreases |nodes| - i
      {
        var temp := node;
        node := node.next;
        if hasFreeValue {
          freed := freed + [temp.value];
        }
        i := i + 1;
      }
      head, tail := null, null;
      size := 0;
      nodes, elements := [], [];
      Repr := {this};
    }

    /** AListAppend: a new last node. */
    method Append(value: T) returns (node: Node<T>)
      requires Valid()
      modifies Repr
      ensures Valid() && fresh(node) && Repr == old(Repr) + {node}
      ensures nodes == old(nodes) + [node] && elements == old(elements) + [value]
    {
      ghost var before := nodes;
      node := new Node(value);
      if tail == null {
        head, tail := node, node;
      } else {
        tail.next := node;
        node.prev := tail;
        tail := node;
      }
      size := size + 1;
      assert Distinct([node]);
      DistinctConcat(before, [node]);
      nodes, elements := nodes + [node], elements + [value];
      Repr := Repr + {node};
    }

    /** AListPrepend: a new first node. */
    method Prepend(value: T) returns (node: Node<T>)
      requires Valid()
      modifies Repr
      ensures Valid() && fresh(node) && Repr == old(Repr) + {node}
      ensures nodes == [node] + old(nodes) && elements == [value] + old(elements)
    {
      ghost var before := nodes;
      node := new Node(value);
      if head == null {
        head, tail := node, node;
      } else {
        head.prev := node;
        node.next := head;
        head := node;
      }
      size := size + 1;
      assert Distinct([node]);
      DistinctConcat([node], before);
      nodes, elements := [node] + nodes, [value] + elements;
      Repr := Repr + {node};
    }

    /** AListLast: the tail's value, or None on an empty list. */
    method Last() returns (r: Option<T>)
      requires Valid()
      ensures r == if elements == [] then None else Some(elements[|elements| - 1])
    {
      r := if tail != null then Some(tail.value) else None;
    }

    /** AListFirst: the head's value, or None on an empty list. */
    method First() returns (r: Option<T>)
      requires Valid()
      ensures r == if elements == [] then None else Some(elements[0])
    {
      r := if head != null then Some(head.value) else None;
    }

    /** AListRemove: unlink `node`, fix head and tail, and return its value; None, and no
        change, for a null node or an empty list. */
    method Remove(node: Node?<T>) returns (r: Option<T>)
      requires Valid()
      requires node != null && nodes != [] ==> node in nodes
      modifies Repr
      ensures Valid() && Repr <= old(Repr)
      ensures node == null || old(nodes) == [] ==>
                r == None && nodes == old(nodes) && elements == old(elements) && Repr == old(Repr)
      ensures node != null && old(nodes) != [] ==>
                var k := IndexOf(old(nodes), node);
                r == Some(old(elements)[k])
                && nodes == old(nodes)[..k] + old(nodes)[k + 1..]
                && elements == old(elements)[..k] + old(elements)[k + 1..]
                && Repr == old(Repr) - {node}
    {
      if head == null || tail == null || node == null {
        return None;
      }
      ghost var k := IndexOf(nodes, node);
      IndexOfDistinct(nodes, |nodes| - 1);
      assert node == head <==> k == 0;
      assert node == tail <==> k == |nodes| - 1;
      r := Some(node.value);
      if node == head && node == tail {
        UnlinkOnly(node, k);
      } else if node == head {
        UnlinkHead(node, k);
      } else if node == tail {
        UnlinkTail(node, k);
      } else {
        UnlinkMiddle(node, k);
      }
    }

    /** The only-node branch of AListRemove: the list becomes empty. */
    method UnlinkOnly(node: Node<T>, ghost k: nat)
      requires Valid() && k == 0 && |nodes| == 1 && nodes[k] == node
      modifies this
      ensures Valid() && Repr == old(Repr) - {node}
      ensures nodes == old(nodes)[..k] + old(nodes)[k + 1..]
      ensures elements == old(elements)[..k] + old(elements)[k + 1..]
    {
      head, tail := null, null;
      size := size - 1;
      nodes := nodes[..k] + nodes[k + 1..];
      elements := elements[..k] + elements[k + 1..];
      Repr := Repr - {node};
    }

    /** The head branch of AListRemove: the second node becomes the head. */
    method UnlinkHead(node: Node<T>, ghost k: nat)
      requires Valid() && k == 0 && |nodes| > 1 && nodes[k] == node && head == node
      modifies Repr
      ensures Valid() && Repr == old(Repr) - {node}
      ensures nodes == old(nodes)[..k] + old(nodes)[k + 1..]
      ensures elements == old(elements)[..k] + old(elements)[k + 1..]
    {
      assert nodes[0].next == nodes[1] && nodes[1] in Repr;
      DistinctAt(nodes, 1);
      head := head.next;
      head.prev := null;
      size := size - 1;
      nodes := nodes[..k] + nodes[k + 1..];
      elements := elements[..k] + elements[k + 1..];
      Repr := Repr - {node};
      LinkedAfterRemove(k, node);
    }

    /** The tail branch of AListRemove: the node before the tail becomes the tail. */
    method UnlinkTail(node: Node<T>, ghost k: nat)
      requires Valid() && k == |nodes| - 1 && k > 0 && nodes[k] == node && tail == node
      modifies Repr
      ensures Valid() && Repr == old(Repr) - {node}
      ensures nodes == old(nodes)[..k] + old(nodes)[k + 1..]
      ensures elements == old(elements)[..k] + old(elements)[k + 1..]
    {
      assert nodes[k].prev == nodes[k - 1] && nodes[k - 1] in Repr;
      DistinctAt(nodes, k - 1);
      tail := tail.prev;
      tail.next := null;
      size := size - 1;
      nodes := nodes[..k] + nodes[k + 1..];
      elements := elements[..k] + elements[k + 1..];
      Repr := Repr - {node};
      LinkedAfterRemove(k, node);
    }

    /** The middle branch of AListRemove: the neighbours of the node at `k` are joined. */
    method UnlinkMiddle(node: Node<T>, ghost k: nat)
      requires Valid() && 0 < k < |nodes| - 1 && nodes[k] == node
      modifies Repr
      ensures Valid() && Repr == old(Repr) - {node}
      ensures nodes == old(nodes)[..k] + old(nodes)[k + 1..]
      ensures elements == old(elements)[..k] + old(elements)[k + 1..]
    {
      assert node.prev == nodes[k - 1] && nodes[k - 1] in Repr;
      assert node.next == nodes[k + 1] && nodes[k + 1] in Repr;
      DistinctAt(nodes, k - 1);
      DistinctAt(nodes, k + 1);
      node.prev.next := node.next;
      node.next.prev := node.prev;
      size := size - 1;
      nodes := nodes[..k] + nodes[k + 1..];
      elements := elements[..k] + elements[k + 1..];
      Repr := Repr - {node};
      LinkedAfterRemove(k, node);
    }

    /** The chain is intact after the node at index `k` has been unlinked. (The index is a
        `new` parameter, as in the other two-state lemmas here: an integer has nothing to be
        allocated in the earlier state.) */
    twostate lemma LinkedAfterRemove(new k: nat, node: Node<T>)
      requires old(Valid()) && k < |old(nodes)| && old(nodes)[k] == node
      requires nodes == old(nodes)[..k] + old(nodes)[k + 1..]
      requires elements == old(elements)[..k] + old(elements)[k + 1..]
      requires Repr == old(Repr) - {node} && size == old(size) - 1
      requires head == (if k == 0 then old(node.next) else old(head))
      requires tail == (if k == |old(nodes)| - 1 then old(node.prev) else old(tail))
      requires k > 0 ==> old(nodes)[k - 1].next == old(node.next)
      requires k < |old(nodes)| - 1 ==> old(nodes)[k + 1].prev == old(node.prev)
      requires forall i :: 0 <= i < |old(nodes)| && i != k - 1 ==> old(nodes)[i].next == old(nodes[i].next)
      requires forall i :: 0 <= i < |old(nodes)| && i != k + 1 ==> old(nodes)[i].prev == old(nodes[i].prev)
      requires forall i :: 0 <= i < |old(nodes)| ==> old(nodes)[i].value == old(nodes[i].value)
      ensures Valid()
    {
      ghost var before := old(nodes);
      DistinctRemove(before, k);
      assert forall i :: 0 <= i < k ==> nodes[i] == before[i];
      assert forall i :: k <= i < |nodes| ==> nodes[i] == before[i + 1];
    }

    /** AListPopLast: remove the tail and return its value; None on an empty list. */
    method PopLast() returns (r: Option<T>)
      requires Valid()
      modifies Repr
      ensures Valid() && Repr <= old(Repr)
      ensures old(elements) == [] ==> r == None && elements == []
      ensures old(elements) != [] ==>
                r == Some(old(elements)[|old(elements)| - 1])
                && elements == old(elements)[..|old(elements)| - 1]
    {
      r := None;
      if tail != null {
        IndexOfDistinct(nodes, |nodes| - 1);
        r := Remove(tail);
      }
    }

    /** AListPopFirst: remove the head and return its value; None on an empty list. */
    method PopFirst() returns (r: Option<T>)
      requires Valid()
      modifies Repr
      ensures Valid() && Repr <= old(Repr)
      ensures old(elements) == [] ==> r == None && elements == []
      ensures old(elements) != [] ==> r == Some(old(elements)[0]) && elements == old(elements)[1..]
    {
      r := None;
      if head != null {
        r := Remove(head);
      }
    }

    /** AListInsert: after `prev == tail` (also null on an empty list) this is an append;
        a null `prev` on a non-empty list fails with no change to the list (the node the
        source allocated first is left unreachable); otherwise a new node goes right after
        `prev`. */
    method Insert(prev: Node?<T>, value: T) returns (node: Node?<T>)
      requires Valid()
      requires prev != null ==> prev in nodes
      modifies Repr
      ensures Valid()
      ensures prev == old(tail) ==>
                node != null && fresh(node) && Repr == old(Repr) + {node}
                && nodes == old(nodes) + [node] && elements == old(elements) + [value]
      ensures prev == null && old(tail) != null ==>
                node == null && Repr == old(Repr) && nodes == old(nodes) && elements == old(elements)
      ensures prev != null && prev != old(tail) ==>
                var k := IndexOf(old(nodes), prev);
                node != null && fresh(node) && Repr == old(Repr) + {node}
                && nodes == old(nodes)[..k + 1] + [node] + old(nodes)[k + 1..]
                && elements == old(elements)[..k + 1] + [value] + old(elements)[k + 1..]
    {
      if prev == tail {
        node := Append(value);
        return;
      }
      var created := new Node(value);
      if prev == null {
        return null;
      }
      node := created;
      ghost var k := IndexOf(nodes, prev);
      IndexOfDistinct(nodes, |nodes| - 1);
      LinkAfter(prev, node, k);
    }

    /** The linking step of AListInsert: `node` goes between `prev`, at index `k`, and
        its successor, and the count grows by one. */
    method LinkAfter(prev: Node<T>, node: Node<T>, ghost k: nat)
      requires Valid() && k < |nodes| - 1 && nodes[k] == prev && node !in Repr
      modifies Repr, node
      ensures Valid() && Repr == old(Repr) + {node}
      ensures nodes == old(nodes)[..k + 1] + [node] + old(nodes)[k + 1..]
      ensures elements == old(elements)[..k + 1] + [old(node.value)] + old(elements)[k + 1..]
    {
      ghost var before := nodes;
      assert prev.next == nodes[k + 1] && nodes[k + 1] in Repr;
      DistinctAt(nodes, k);
      DistinctAt(nodes, k + 1);
      assert forall i :: 0 <= i < |before| ==> before[i] != node;
      node.next := prev.next;
      node.next.prev := node;
      node.prev := prev;
      prev.next := node;
      size := size + 1;
      nodes := nodes[..k + 1] + [node] + nodes[k + 1..];
      elements := elements[..k + 1] + [node.value] + elements[k + 1..];
      Repr := Repr + {node};
      LinkedAfterInsert(k, node);
    }

    /** The chain is intact after a node has been linked in after index `k`. */
    twostate lemma LinkedAfterInsert(new k: nat, node: Node<T>)
      requires old(Valid()) && k < |old(nodes)| - 1 && node !in old(Repr)
      requires nodes == old(nodes)[..k + 1] + [node] + old(nodes)[k + 1..]
      requires elements == old(elements)[..k + 1] + [node.value] + old(elements)[k + 1..]
      requires Repr == old(Repr) + {node} && size == old(size) + 1
      requires head == old(head) && tail == old(tail)
      requires node.prev == old(nodes)[k] && node.next == old(nodes)[k + 1]
      requires old(nodes)[k].next == node && old(nodes)[k + 1].prev == node
      requires forall i :: 0 <= i < |old(nodes)| && i != k ==> old(nodes)[i].next == old(nodes[i].next)
      requires forall i :: 0 <= i < |old(nodes)| && i != k + 1 ==> old(nodes)[i].prev == old(nodes[i].prev)
      requires forall i :: 0 <= i < |old(nodes)| ==> old(nodes)[i].value == old(nodes[i].value)
      ensures Valid()
    {
      ghost var before := old(nodes);
      DistinctInsert(before, k + 1, node);
      assert forall i :: 0 <= i <= k ==> nodes[i] == before[i];
      assert forall i :: k + 1 < i < |nodes| ==> nodes[i] == before[i - 1];
    }

    /** AListInsertAt: a new node at index `pos`, through prepend at 0, append at `size`
        and otherwise an insert after the node walked to at `pos - 1`; null and no change
        for `pos > size`. */
    method InsertAt(pos: nat, value: T) returns (node: Node?<T>)
      requires Valid()
      modifies Repr
      ensures Valid()
      ensures pos > old(size) ==>
                node == null && Repr == old(Repr) && nodes == old(nodes) && elements == old(elements)
      ensures pos <= old(size) ==>
                node != null && fresh(node) && Repr == old(Repr) + {node}
                && nodes == old(nodes)[..pos] + [node] + old(nodes)[pos..]
                && elements == old(elements)[..pos] + [value] + old(elements)[pos..]
    {
      if pos > size {
        return null;
      }
      if pos == 0 {
        node := Prepend(value);
        assert old(nodes)[..0] == [] && old(nodes)[0..] == old(nodes);
        assert old(elements)[..0] == [] && old(elements)[0..] == old(elements);
        return;
      } else if pos == size {
        node := Append(value);
        assert old(nodes)[..pos] == old(nodes) && old(nodes)[pos..] == [];
        assert old(elements)[..pos] == old(elements) && old(elements)[pos..] == [];
        return;
      }
      var at := Walk(pos);
      assert at.prev == nodes[pos - 1];
      IndexOfDistinct(nodes, pos - 1);
      IndexOfDistinct(nodes, |nodes| - 1);
      assert at.prev != null && at.prev != tail && IndexOf(nodes, at.prev) + 1 == pos;
      node := Insert(at.prev, value);
    }

    /** AListValueAt: the value at `pos`, or None for `pos >= size`. */
    method ValueAt(pos: nat) returns (r: Option<T>)
      requires Valid()
      ensures r == if pos < |elements| then Some(elements[pos]) else None
    {
      if pos >= size {
        return None;
      }
      var node := Walk(pos);
      r := Some(node.value);
    }

    /** AListReplaceAt: store `value` at `pos` and return the value it replaces; None and
        no change for `pos >= size`. */
    method ReplaceAt(pos: nat, value: T) returns (r: Option<T>)
      requires Valid()
      modifies Repr
      ensures Valid() && Repr == old(Repr) && nodes == old(nodes)
      ensures pos < |old(elements)| ==>
                r == Some(old(elements)[pos]) && elements == old(elements)[pos := value]
      ensures pos >= |old(elements)| ==> r == None && elements == old(elements)
    {
      if pos >= size {
        return None;
      }
      var node := Walk(pos);
      DistinctAt(nodes, pos);
      r := Some(node.value);
      node.value := value;
      elements := elements[pos := value];
    }

    /** AListRemoveAt: remove the node walked to at `pos`. There is no bounds check: any
        `pos` past the end reaches the tail, which is removed. */
    method RemoveAt(pos: nat) returns (r: Option<T>)
      requires Valid() && size > 0
      modifies Repr
      ensures Valid() && Repr <= old(Repr)
      ensures var k := if pos < |old(nodes)| then pos else |old(nodes)| - 1;
              r == Some(old(elements)[k])
              && nodes == old(nodes)[..k] + old(nodes)[k + 1..]
              && elements == old(elements)[..k] + old(elements)[k + 1..]
    {
      var node := Walk(pos);
      IndexOfDistinct(nodes, if pos < size then pos else size - 1);
      r := Remove(node);
    }

    /** AListCopy: a new list of the same length whose values are this list's, each
        passed through `copyValue` when one is given, in the same order. */
    method Copy(copyValue: Option<T -> T>) returns (c: List<T>)
      requires Valid()
      ensures fresh(c) && fresh(c.Repr) && c.Valid() && c.size == size
      ensures |c.elements| == |elements|
      ensures forall i :: 0 <= i < |elements| ==> c.elements[i] == Apply(copyValue, elements[i])
    {
      var node := head;
      c := new List();
      ghost var i := 0;
      while node != null
        invariant Valid() && 0 <= i <= |nodes| && (node == if i < |nodes| then nodes[i] else null)
        invariant fresh(c) && fresh(c.Repr) && c.Valid() && |c.elements| == i
        invariant forall j :: 0 <= j < i ==> c.elements[j] == Apply(copyValue, elements[j])
        decreases |nodes| - i
      {
        assert i + 1 < |nodes| ==> nodes[i].next == nodes[i + 1];
        var _ := c.Append(Apply(copyValue, node.value));
        node := node.next;
        i := i + 1;
      }
      c.size := size;
    }

    /** AListSplitReal: cut the chain before `node`, which is at index `k` (a null node
        only on an empty list); the list keeps the nodes before it and a new list takes
        `node` and everything after it. Neither `size` is touched. */
    method SplitReal(node: Node?<T>, ghost k: nat) returns (newList: List<T>)
      requires Valid()
      requires node == null ==> nodes == [] && k == 0
      requires node != null ==> k < |nodes| && nodes[k] == node
      modifies Repr
      ensures fresh(newList) && Linked() && newList.Linked()
      ensures size == old(size) && newList.size == 0
      ensures nodes == old(nodes)[..k] && elements == old(elements)[..k]
      ensures newList.nodes == old(nodes)[k..] && newList.elements == old(elements)[k..]
      ensures Repr !! newList.Repr && Repr + newList.Repr == old(Repr) + {newList}
    {
      newList := new List();
      if node != null {
        IndexOfDistinct(nodes, k);
      }
      assert node == head <==> k == 0;
      if node == head {
        SplitAtHead(newList, k);
      } else {
        SplitInside(node, newList, k);
      }
    }

    /** The first branch of AListSplitReal: the whole chain moves to the new list. */
    method SplitAtHead(newList: List<T>, ghost k: nat)
      requires Valid() && k == 0 && newList.Valid() && newList.nodes == [] && newList.Repr == {newList}
      requires newList !in Repr
      modifies this, newList
      ensures Linked() && newList.Linked()
      ensures size == old(size) && newList.size == 0
      ensures nodes == old(nodes)[..k] && elements == old(elements)[..k]
      ensures newList.nodes == old(nodes)[k..] && newList.elements == old(elements)[k..]
      ensures Repr !! newList.Repr && Repr + newList.Repr == old(Repr) + {newList}
    {
      ghost var moved: set<object> := set x | x in nodes[k..];
      newList.head := head;
      newList.tail := tail;
      head, tail := null, null;
      newList.nodes, newList.elements := nodes[k..], elements[k..];
      newList.Repr := {newList} + moved;
      nodes, elements := nodes[..k], elements[..k];
      Repr := Repr - moved;
      AfterSplit(k, newList, moved);
    }

    /** The second branch of AListSplitReal: the chain is cut between `k - 1` and `k`. */
    method SplitInside(node: Node<T>, newList: List<T>, ghost k: nat)
      requires Valid() && 0 < k < |nodes| && nodes[k] == node
      requires newList.Valid() && newList.nodes == [] && newList.Repr == {newList}
      requires newList !in Repr
      modifies Repr, newList
      ensures Linked() && newList.Linked()
      ensures size == old(size) && newList.size == 0
      ensures nodes == old(nodes)[..k] && elements == old(elements)[..k]
      ensures newList.nodes == old(nodes)[k..] && newList.elements == old(elements)[k..]
      ensures Repr !! newList.Repr && Repr + newList.Repr == old(Repr) + {newList}
    {
      ghost var moved: set<object> := set x | x in nodes[k..];
      assert node.prev == nodes[k - 1] && nodes[k - 1] in Repr;
      var last := node.prev;
      Cut(last, node, k);
      newList.head := node;
      newList.tail := tail;
      tail := last;
      newList.nodes, newList.elements := nodes[k..], elements[k..];
      newList.Repr := {newList} + moved;
      nodes, elements := nodes[..k], elements[..k];
      Repr := Repr - moved;
      AfterSplit(k, newList, moved);
    }

    /** Unlink the chain between `prev`, at index `k - 1`, and `node`, at index `k`. */
    method Cut(prev: Node<T>, node: Node<T>, ghost k: nat)
      requires Valid() && 0 < k < |nodes| && nodes[k] == node && nodes[k - 1] == prev
      modifies prev, node
      ensures prev.next == null && node.prev == null
      ensures forall i :: 0 <= i < |nodes| && i != k - 1 ==> nodes[i].next == old(nodes[i].next)
      ensures forall i :: 0 <= i < |nodes| && i != k ==> nodes[i].prev == old(nodes[i].prev)
      ensures forall i :: 0 <= i < |nodes| ==> nodes[i].value == old(nodes[i].value)
    {
      DistinctAt(nodes, k - 1);
      DistinctAt(nodes, k);
      prev.next := null;
      node.prev := null;
    }

    /** Both halves are intact chains with disjoint footprints after a split at `k`. */
    twostate lemma AfterSplit(new k: nat, new newList: List<T>, moved: set<object>)
      requires old(Valid()) && k <= |old(nodes)| && (k == |old(nodes)| ==> k == 0)
      requires newList != this && newList !in old(Repr)
      requires moved == set x | x in old(nodes)[k..]
      requires nodes == old(nodes)[..k] && elements == old(elements)[..k]
      requires newList.nodes == old(nodes)[k..] && newList.elements == old(elements)[k..]
      requires Repr == old(Repr) - moved && newList.Repr == {newList} + moved
      requires head == (if k == 0 then null else old(head))
      requires tail == (if k == 0 then null else old(nodes)[k - 1])
      requires newList.head == (if k < |old(nodes)| then old(nodes)[k] else null)
      requires newList.tail == old(tail)
      requires k > 0 ==> old(nodes)[k - 1].next == null
      requires k < |old(nodes)| ==> old(nodes)[k].prev == null
      requires forall i :: 0 <= i < |old(nodes)| && i != k - 1 ==> old(nodes)[i].next == old(nodes[i].next)
      requires forall i :: 0 <= i < |old(nodes)| && i != k ==> old(nodes)[i].prev == old(nodes[i].prev)
      requires forall i :: 0 <= i < |old(nodes)| ==> old(nodes)[i].value == old(nodes[i].value)
      ensures Linked() && newList.Linked()
      ensures Repr !! newList.Repr && Repr + newList.Repr == old(Repr) + {newList}
    {
      ghost var before := old(nodes);
      DistinctSplit(before, k);
      assert forall x :: x in before[..k] ==> x in old(Repr) && x !in moved;
      LinkedAfterSplit(k, newList);
      LinkedAfterSplitNew(k, newList);
      DisjointAfterSplit(k, newList, moved);
    }

    /** The kept half is an intact chain after a split at `k`. */
    twostate lemma LinkedAfterSplit(new k: nat, new newList: List<T>)
      requires old(Valid()) && k <= |old(nodes)| && (k == |old(nodes)| ==> k == 0)
      requires nodes == old(nodes)[..k] && elements == old(elements)[..k]
      requires forall x :: x in old(nodes)[..k] ==> x in Repr
      requires this in Repr
      requires head == (if k == 0 then null else old(head))
      requires tail == (if k == 0 then null else old(nodes)[k - 1])
      requires k > 0 ==> old(nodes)[k - 1].next == null
      requires forall i :: 0 <= i < k - 1 ==> old(nodes)[i].next == old(nodes[i].next)
      requires forall i :: 0 <= i < k ==> old(nodes)[i].prev == old(nodes[i].prev)
      requires forall i :: 0 <= i < k ==> old(nodes)[i].value == old(nodes[i].value)
      ensures Linked()
    {
      DistinctSplit(old(nodes), k);
    }

    /** The new half is an intact chain after a split at `k`. */
    twostate lemma LinkedAfterSplitNew(new k: nat, new newList: List<T>)
      requires old(Valid()) && k <= |old(nodes)| && (k == |old(nodes)| ==> k == 0)
      requires newList.nodes == old(nodes)[k..] && newList.elements == old(elements)[k..]
      requires newList in newList.Repr
      requires forall x :: x in old(nodes)[k..] ==> x in newList.Repr
      requires newList.head == (if k < |old(nodes)| then old(nodes)[k] else null)
      requires newList.tail == old(tail)
      requires k < |old(nodes)| ==> old(nodes)[k].prev == null
      requires forall i :: k <= i < |old(nodes)| ==> old(nodes)[i].next == old(nodes[i].next)
      requires forall i :: k < i < |old(nodes)| ==> old(nodes)[i].prev == old(nodes[i].prev)
      requires forall i :: k <= i < |old(nodes)| ==> old(nodes)[i].value == old(nodes[i].value)
      ensures newList.Linked()
    {
      ghost var before, ns := old(nodes), newList.nodes;
      DistinctSplit(before, k);
      forall i | 0 <= i < |ns|
        ensures ns[i] in newList.Repr && ns[i].value == newList.elements[i]
      {
        assert ns[i] == before[k + i] && newList.elements[i] == old(elements)[k + i];
      }
      forall i | 0 < i < |ns|
        ensures ns[i].prev == ns[i - 1]
      {
        assert ns[i] == before[k + i] && ns[i - 1] == before[k + i - 1];
      }
      forall i | 0 <= i < |ns| - 1
        ensures ns[i].next == ns[i + 1]
      {
        assert ns[i] == before[k + i] && ns[i + 1] == before[k + i + 1];
      }
    }

    /** The two footprints after a split at `k` are disjoint and together the old one. */
    twostate lemma DisjointAfterSplit(new k: nat, new newList: List<T>, moved: set<object>)
      requires old(Valid()) && k <= |old(nodes)|
      requires newList != this && newList !in old(Repr)
      requires moved == set x | x in old(nodes)[k..]
      requires nodes == old(nodes)[..k]
      requires Repr == old(Repr) - moved && newList.Repr == {newList} + moved
      ensures Repr !! newList.Repr && Repr + newList.Repr == old(Repr) + {newList}
    {
      ghost var before := old(nodes);
      assert forall x :: x in before[k..] ==> x in before;
      assert forall x :: x in moved ==> x in old(Repr);
    }

    /** AListSplit: split before `node`, then count the new list's nodes by walking it and
        move that count from this list's size to the new list's. */
    method Split(node: Node?<T>) returns (newList: List<T>)
      requires Valid()
      requires node == null ==> nodes == []
      requires node != null ==> node in nodes
      modifies Repr
      ensures fresh(newList) && Valid() && newList.Valid()
      ensures var k := if node == null then 0 else IndexOf(old(nodes), node);
              nodes == old(nodes)[..k] && elements == old(elements)[..k]
              && newList.nodes == old(nodes)[k..] && newList.elements == old(elements)[k..]
      ensures Repr !! newList.Repr && Repr + newList.Repr == old(Repr) + {newList}
    {
      ghost var k := if node == null then 0 else IndexOf(nodes, node);
      newList := SplitReal(node, k);
      var iter := newList.head;
      var count := 0;
      while iter != null
        modifies {}
        invariant newList.Linked() && count <= |newList.nodes|
        invariant iter == if count < |newList.nodes| then newList.nodes[count] else null
        decreases |newList.nodes| - count
      {
        assert count + 1 < |newList.nodes| ==> newList.nodes[count].next == newList.nodes[count + 1];
        iter := iter.next;
        count := count + 1;
      }
      Recount(newList, count);
    }

    /** The size bookkeeping shared by split and splitAt: `n` of this list's nodes are now
        counted by `newList`. */
    method Recount(newList: List<T>, n: nat)
      requires Linked() && newList.Linked() && Repr !! newList.Repr && n <= size
      modifies this`size, newList`size
      ensures Linked() && newList.Linked()
      ensures newList.size == n && size == old(size) - n
    {
      newList.size := n;
      size := size - newList.size;
    }

    /** AListSplitAt as written: walk to `pos` (the tail for any `pos` past the end), split
        there, give the new list `size - pos` and keep `pos`. At `pos == size` the tail
        moves to the new list while the counts claim it stayed. */
    method SplitAtAsWritten(pos: nat) returns (newList: List<T>)
      requires Valid() && size > 0 && pos <= size
      modifies Repr
      ensures fresh(newList) && Linked() && newList.Linked()
      ensures var k := if pos < old(size) then pos else old(size) - 1;
              nodes == old(nodes)[..k] && elements == old(elements)[..k]
              && newList.nodes == old(nodes)[k..] && newList.elements == old(elements)[k..]
      ensures Repr !! newList.Repr && Repr + newList.Repr == old(Repr) + {newList}
      ensures newList.size == old(size) - pos && size == pos
      ensures pos < old(size) ==> Valid() && newList.Valid()
      ensures pos == old(size) ==> size == |nodes| + 1 && newList.size == 0 && |newList.nodes| == 1
    {
      var node := Walk(pos);
      newList := SplitReal(node, if pos < size then pos else size - 1);
      Recount(newList, size - pos);
    }

    /** AListSplitAt with the bounds check its documentation implies: no node at `pos`
        means no split (null, no change); otherwise this list keeps `[0, pos)` and the new
        list holds `[pos, size)`. */
    method SplitAt(pos: nat) returns (newList: List?<T>)
      requires Valid()
      modifies Repr
      ensures Valid()
      ensures newList == null <==> pos >= old(size)
      ensures newList == null ==>
                nodes == old(nodes) && elements == old(elements) && Repr == old(Repr)
      ensures newList != null ==>
                fresh(newList) && newList.Valid()
                && nodes == old(nodes)[..pos] && elements == old(elements)[..pos]
                && newList.nodes == old(nodes)[pos..] && newList.elements == old(elements)[pos..]
                && Repr !! newList.Repr && Repr + newList.Repr == old(Repr) + {newList}
    {
      if pos >= size {
        return null;
      }
      newList := SplitAtAsWritten(pos);
    }

    /** AListJoin: link `second`'s chain after this list's tail and add the sizes. Both
        lists must be non-empty; `second` is freed afterwards, so its nodes are now this
        list's. */
    method Join(second: List<T>)
      requires Valid() && second.Valid() && nodes != [] && second.nodes != []
      requires Repr !! second.Repr
      modifies this, tail, second.head
      ensures Valid()
      ensures nodes == old(nodes) + old(second.nodes) && elements == old(elements) + old(second.elements)
      ensures Repr == old(Repr) + (old(second.Repr) - {second})
    {
      assert nodes[|nodes| - 1] in Repr && second.nodes[0] in second.Repr;
      DistinctAt(nodes, |nodes| - 1);
      DistinctAt(second.nodes, 0);
      assert forall i :: 0 <= i < |second.nodes| ==> second.nodes[i] in second.Repr;
      tail.next := second.head;
      second.head.prev := tail;
      tail := second.tail;
      size := size + second.size;
      nodes, elements := nodes + second.nodes, elements + second.elements;
      Repr := Repr + (second.Repr - {second});
      LinkedAfterJoin(second);
    }

    /** The joined chain is intact. */
    twostate lemma LinkedAfterJoin(second: List<T>)
      requires old(Valid()) && old(second.Valid()) && old(nodes) != [] && old(second.nodes) != []
      requires old(Repr) !! old(second.Repr)
      requires nodes == old(nodes) + old(second.nodes) && elements == old(elements) + old(second.elements)
      requires Repr == old(Repr) + (old(second.Repr) - {second})
      requires size == old(size) + old(second.size)
      requires head == old(head) && tail == old(second.tail)
      requires old(tail).next == old(second.head) && old(second.head).prev == old(tail)
      requires forall i :: 0 <= i < |old(nodes)| - 1 ==> old(nodes)[i].next == old(nodes[i].next)
      requires forall i :: 0 <= i < |old(nodes)| ==> old(nodes)[i].prev == old(nodes[i].prev)
      requires forall i :: 0 <= i < |old(nodes)| ==> old(nodes)[i].value == old(nodes[i].value)
      requires forall i :: 0 <= i < |old(second.nodes)| ==>
                 old(second.nodes)[i].next == old(second.nodes[i].next)
      requires forall i :: 0 < i < |old(second.nodes)| ==>
                 old(second.nodes)[i].prev == old(second.nodes[i].prev)
      requires forall i :: 0 <= i < |old(second.nodes)| ==>
                 old(second.nodes)[i].value == old(second.nodes[i].value)
      ensures Valid()
    {
      ghost var a, b := old(nodes), old(second.nodes);
      assert forall i :: 0 <= i < |a| ==> a[i] in old(Repr);
      assert forall i :: 0 <= i < |b| ==> b[i] in old(second.Repr);
      DistinctConcat(a, b);
      assert forall i :: 0 <= i < |a| ==> nodes[i] == a[i];
      assert forall i :: |a| <= i < |nodes| ==> nodes[i] == b[i - |a|];
    }
  }
}
