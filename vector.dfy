/** The dynamic array: a buffer of `capacity` value slots of which the first `size` are in
    use. The buffer grows by doubling before an insertion would overflow it. */
module Vectors {
  import opened Wrappers
  import opened Bits

  const DefaultCapacity: nat := 16
  const ExpandRatio: nat := 2

  /** The capacity a new vector gets from its optional capacity argument. */
  function InitialCapacity(hint: Option<int>): (c: nat)
    ensures c > 0
  {
    if hint.Some? && hint.value > 0 then hint.value else DefaultCapacity
  }

  /** The capacity after the doubling loop of MaybeExpand: `capacity` doubled until it
      exceeds `size`, or `capacity` itself when it already does. */
  function GrownCapacity(capacity: nat, size: nat): nat
    requires capacity > 0
    decreases size + 1 - capacity
  {
    if size < capacity then capacity else GrownCapacity(ExpandRatio * capacity, size)
  }

  /** The grown capacity holds more than `size` values, is the old capacity times a power
      of two, and is the least such: halving it would no longer exceed `size`. */
  lemma {:induction false} GrownCapacityIsLeastDoubling(capacity: nat, size: nat)
    requires capacity > 0
    ensures size < GrownCapacity(capacity, size)
    ensures exists j: nat :: GrownCapacity(capacity, size) == capacity * Pow2(j)
    ensures GrownCapacity(capacity, size) == capacity || GrownCapacity(capacity, size) / 2 <= size
    decreases size + 1 - capacity
  {
    if size < capacity {
      assert capacity == capacity * Pow2(0);
    } else {
      GrownCapacityIsLeastDoubling(2 * capacity, size);
      var j: nat :| GrownCapacity(2 * capacity, size) == 2 * capacity * Pow2(j);
      var q := Pow2(j);
      assert Pow2(j + 1) == 2 * q;
      assert 2 * capacity * q == capacity * (2 * q);
      assert GrownCapacity(capacity, size) == capacity * Pow2(j + 1);
    }
  }

  /** The largest value of the 64-bit `size_t`. */
  const SizeMax: nat := 0xFFFF_FFFF_FFFF_FFFF

  /** The capacity as the code computes it: the `int` argument is stored into the unsigned
      `size_t` capacity before the `<= 0` test, so a negative argument wraps to a huge
      capacity and only 0 falls back to the default. */
  function InitialCapacityAsWritten(hint: Option<int>): (c: nat)
    ensures c > 0
  {
    if hint.None? then DefaultCapacity
    else
      var u := hint.value % (SizeMax + 1);
      if u == 0 then DefaultCapacity else u
  }

  /** A negative capacity argument such as -1 yields a capacity of 2^64 + hint, where the
      default was intended. */
  lemma NegativeHintAsWritten(hint: int)
    requires -0x8000_0000 <= hint < 0
    ensures InitialCapacityAsWritten(Some(hint)) == SizeMax + 1 + hint
    ensures InitialCapacityAsWritten(Some(hint)) > 0x7FFF_FFFF
    ensures InitialCapacity(Some(hint)) == DefaultCapacity
  {
  }

  /** The corrected capacity never exceeds what an `int` argument can ask for, and it
      differs from the capacity as written exactly on a negative argument. */
  lemma InitialCapacityCorrection(hint: Option<int>)
    requires hint.Some? ==> -0x8000_0000 <= hint.value <= 0x7FFF_FFFF
    ensures InitialCapacity(hint) <= 0x7FFF_FFFF
    ensures InitialCapacityAsWritten(hint) == InitialCapacity(hint) <==> hint.None? || hint.value >= 0
  {
    if hint.Some? && hint.value < 0 {
      NegativeHintAsWritten(hint.value);
    }
  }

  /** The counters of a vector that growth touches; `slots` is the length of the buffer the
      vector actually holds. */
  datatype Shape = Shape(size: nat, capacity: nat, slots: nat)

  /** A vector at rest: the capacity is the buffer's length and bounds the size. */
  predicate Consistent(v: Shape)
  {
    0 < v.capacity == v.slots && v.size <= v.capacity
  }

  /** AVectorMaybeExpand as written, with the outcome of realloc as a parameter: the
      capacity is doubled before realloc is called and stays doubled when realloc fails,
      while the old buffer is kept. The flag is false on failure. */
  function MaybeExpandAsWritten(v: Shape, reallocOk: bool): (r: (Shape, bool))
    requires 0 < v.capacity
    ensures r.0.size == v.size < r.0.capacity
    ensures !r.1 ==> r.0.slots == v.slots
  {
    GrownCapacityIsLeastDoubling(v.capacity, v.size);
    if v.size < v.capacity then (v, true)
    else
      var c := GrownCapacity(v.capacity, v.size);
      if reallocOk then (Shape(v.size, c, c), true) else (Shape(v.size, c, v.slots), false)
  }

  /** AVectorMaybeExpand that leaves the capacity alone when realloc fails. */
  function MaybeExpandChecked(v: Shape, reallocOk: bool): (r: (Shape, bool))
    requires 0 < v.capacity == v.slots
    ensures r.1 ==> r.0.size < r.0.capacity == r.0.slots
    ensures !r.1 ==> r.0 == v
  {
    GrownCapacityIsLeastDoubling(v.capacity, v.size);
    if v.size < v.capacity then (v, true)
    else
      var c := GrownCapacity(v.capacity, v.size);
      if reallocOk then (Shape(v.size, c, c), true) else (v, false)
  }

  /** The slot AVectorAppend writes, or None when the growth step fails. */
  function AppendSlotAsWritten(v: Shape, reallocOk: bool): (r: Option<nat>)
    requires 0 < v.capacity
    ensures r.None? <==> v.size >= v.capacity && !reallocOk
    ensures r.Some? ==> r.value == v.size
  {
    var (w, ok) := MaybeExpandAsWritten(v, reallocOk);
    if ok then Some(w.size) else None
  }

  /** A full vector whose realloc fails once is left with a capacity above its buffer, so
      the next append skips the growth step and writes one slot past the buffer. */
  lemma GrowthFailureAsWritten(c: nat)
    requires 0 < c
    ensures var (w, ok) := MaybeExpandAsWritten(Shape(c, c, c), false);
            && !ok && w.capacity > w.slots
            && AppendSlotAsWritten(w, false) == Some(w.slots)
  {
    GrownCapacityIsLeastDoubling(c, c);
  }

  /** With the checked growth step every write lands inside the buffer, whatever realloc
      does, and a step that fails leaves a consistent vector consistent. */
  lemma GrowthFailureChecked(v: Shape, reallocOk: bool)
    requires Consistent(v)
    ensures var (w, ok) := MaybeExpandChecked(v, reallocOk);
            && (ok ==> w.size < w.slots && Consistent(w))
            && (!ok ==> w == v)
    ensures !MaybeExpandChecked(v, reallocOk).1 ==> v.size == v.capacity
  {
  }

  /** AVectorJoin as written on the counters: the size first grows by the second vector's
      size, and stays grown when the growth step fails and null is returned. */
  function JoinAsWritten(v: Shape, n: nat, reallocOk: bool): (r: (Shape, bool))
    requires 0 < v.capacity
    ensures r.0.size == v.size + n
    ensures r.1 <==> v.size + n < v.capacity || reallocOk
  {
    MaybeExpandAsWritten(v.(size := v.size + n), reallocOk)
  }

  /** AVectorJoin that restores the first vector when the growth step fails. */
  function JoinChecked(v: Shape, n: nat, reallocOk: bool): (r: (Shape, bool))
    requires 0 < v.capacity == v.slots
    ensures r.1 ==> r.0.size == v.size + n && r.0.size < r.0.capacity == r.0.slots
    ensures !r.1 ==> r.0 == v
  {
    var (w, ok) := MaybeExpandChecked(v.(size := v.size + n), reallocOk);
    if ok then (w, true) else (v, false)
  }

  /** Joining a non-empty vector onto a full one whose realloc fails leaves the first vector
      claiming more values than its buffer holds. */
  lemma JoinFailureAsWritten(c: nat, n: nat)
    requires 0 < c && 0 < n
    ensures var (w, ok) := JoinAsWritten(Shape(c, c, c), n, false);
            !ok && w.size == c + n > w.slots
  {
  }

  /** A failed checked join changes nothing, so a consistent vector stays consistent. */
  lemma JoinFailureChecked(v: Shape, n: nat, reallocOk: bool)
    requires Consistent(v)
    ensures var (w, ok) := JoinChecked(v, n, reallocOk);
            Consistent(w) && (ok <==> v.size + n < v.capacity || reallocOk)
  {
    GrownCapacityIsLeastDoubling(v.capacity, v.size + n);
  }

  class Vector<T(0)> {
    var values: array<T>
    var size: nat
    var capacity: nat

    ghost predicate Valid()
      reads this
    {
      values.Length == capacity && 0 < capacity && size <= capacity
    }

    /** The values in use, in index order. */
    ghost function Elements(): seq<T>
      reads this, values
      requires Valid()
    {
      values[..size]
    }

    /** AVectorCreate: an empty vector whose capacity is the positive hint or the default. */
    constructor (hint: Option<int>)
      ensures Valid() && fresh(values)
      ensures Elements() == []
      ensures capacity == InitialCapacity(hint)
    {
      capacity := InitialCapacity(hint);
      size := 0;
      values := new T[InitialCapacity(hint)];
    }

    /** AVectorMaybeExpand: when `size` has reached `capacity`, double the capacity until
        it exceeds `size` and move the buffer (realloc) keeping its old contents. `size`
        may exceed the capacity on entry: Join bumps it first. */
    method MaybeExpand()
      requires values.Length == capacity && 0 < capacity
      modifies this
      ensures values.Length == capacity && size == old(size)
      ensures capacity == GrownCapacity(old(capacity), size) && size < capacity
      ensures values[..old(capacity)] == old(values[..])
      ensures values == old(values) || fresh(values)
      ensures size < old(capacity) ==> values == old(values) && capacity == old(capacity)
    {
      GrownCapacityIsLeastDoubling(capacity, size);
      if size >= capacity {
        var newCapacity := capacity;
        while size >= newCapacity
          invariant 0 < newCapacity
          modifies {}
          invariant GrownCapacity(newCapacity, size) == GrownCapacity(capacity, size)
          decreases size + 1 - newCapacity
        {
          newCapacity := newCapacity * ExpandRatio;
        }
        var newValues := new T[newCapacity];
        var i := 0;
        while i < capacity
          invariant 0 <= i <= capacity <= newCapacity
          invariant newValues[..i] == values[..i]
          modifies newValues
        {
          newValues[i] := values[i];
          i := i + 1;
        }
        values := newValues;
        capacity := newCapacity;
      }
    }

    /** AVectorAppend: store `value` at index `size`; `slot` is the index of the stored
        value, which the C returns as a pointer into the buffer. The buffer moves only
        when the vector was full. */
    method Append(value: T) returns (slot: nat)
      requires Valid()
      modifies this, values
      ensures Valid() && size == old(size) + 1 && (values == old(values) || fresh(values))
      ensures Elements() == old(Elements()) + [value]
      ensures slot == old(size) && values[slot] == value
      ensures capacity == GrownCapacity(old(capacity), old(size))
      ensures old(size) < old(capacity) ==> values == old(values)
    {
      MaybeExpand();
      slot := size;
      values[size] := value;
      size := size + 1;
    }

    /** AVectorInsert: for `pos <= size`, shift the tail one slot up and store `value` at
        `pos`, whose index is the `slot` returned; otherwise fail (None) and change nothing,
        buffer and capacity included. */
    method Insert(pos: nat, value: T) returns (slot: Option<nat>)
      requires Valid()
      modifies this, values
      ensures Valid() && (values == old(values) || fresh(values))
      ensures slot.Some? <==> pos <= old(size)
      ensures slot.Some? ==> slot.value == pos
      ensures slot.Some? ==> Elements() == old(Elements())[..pos] + [value] + old(Elements())[pos..]
      ensures slot.Some? ==> capacity == GrownCapacity(old(capacity), old(size))
      ensures slot.Some? && old(size) < old(capacity) ==> values == old(values)
      ensures slot.None? ==> Elements() == old(Elements())
      ensures slot.None? ==> values == old(values) && capacity == old(capacity) && size == old(size)
    {
      if pos > size {
        return None;
      }
      ghost var before := Elements();
      MaybeExpand();
      ShiftUp(values, pos, size);
      size := size + 1;
      values[pos] := value;
      assert Elements() == before[..pos] + [value] + before[pos..];
      slot := Some(pos);
    }

    /** The loop of AVectorInsert: move `a[pos..n]` one slot up, leaving `a[pos]` as it was. */
    static method ShiftUp(a: array<T>, pos: nat, n: nat)
      requires pos <= n < a.Length
      modifies a
      ensures forall j :: 0 <= j <= pos ==> a[j] == old(a[j])
      ensures forall j :: pos < j <= n ==> a[j] == old(a[j - 1])
    {
      var i := n;
      while i > pos
        invariant pos <= i <= n
        invariant forall j :: 0 <= j <= i ==> a[j] == old(a[j])
        invariant forall j :: i < j <= n ==> a[j] == old(a[j - 1])
      {
        a[i] := a[i - 1];
        i := i - 1;
      }
    }

    /** AVectorReplace: overwrite index `pos < size`, handing the old value to the
        destructor (`freed`); at `pos == size` append without freeing; past the end fail
        (None) and change nothing. `slot` is the index of the stored value. Only the append
        can move the buffer. */
    method Replace(pos: nat, value: T) returns (slot: Option<nat>, freed: Option<T>)
      requires Valid()
      modifies this, values
      ensures Valid() && (values == old(values) || fresh(values))
      ensures slot.Some? <==> pos <= old(size)
      ensures slot.Some? ==> slot.value == pos
      ensures pos < old(size) ==>
                freed == Some(old(Elements())[pos]) && Elements() == old(Elements())[pos := value]
      ensures pos < old(size) ==> values == old(values) && capacity == old(capacity) && size == old(size)
      ensures pos == old(size) ==> freed == None && Elements() == old(Elements()) + [value]
      ensures pos == old(size) ==> capacity == GrownCapacity(old(capacity), old(size))
      ensures pos == old(size) < old(capacity) ==> values == old(values)
      ensures pos > old(size) ==> freed == None && Elements() == old(Elements())
      ensures pos > old(size) ==> values == old(values) && capacity == old(capacity) && size == old(size)
    {
      freed := None;
      if pos == size {
        var at := Append(value);
        return Some(at), None;
      }
      if pos < size {
        freed := Some(values[pos]);
        values[pos] := value;
        return Some(pos), freed;
      }
      slot := None;
    }

    /** AVectorRemove: for `pos < size` return the value there and shift the tail one
        slot down; otherwise return None and change nothing. */
    method Remove(pos: nat) returns (r: Option<T>)
      requires Valid()
      modifies this, values
      ensures Valid() && values == old(values)
      ensures pos < old(size) ==>
                r == Some(old(Elements())[pos]) && Elements() == old(Elements())[..pos] + old(Elements())[pos + 1..]
      ensures pos >= old(size) ==> r == None && Elements() == old(Elements())
    {
      if pos >= size {
        return None;
      }
      ghost var before := Elements();
      r := Some(values[pos]);
      size := size - 1;
      var i := pos;
      while i < size
        invariant pos <= i <= size && |before| == size + 1
        invariant forall j :: 0 <= j < pos ==> values[j] == before[j]
        invariant forall j :: pos <= j < i ==> values[j] == before[j + 1]
        invariant forall j :: i <= j <= size ==> values[j] == before[j]
        modifies values
      {
        values[i] := values[i + 1];
        i := i + 1;
      }
      assert Elements() == before[..pos] + before[pos + 1..];
    }

    /** AVectorSet: like Replace without a destructor. */
    method Set(pos: nat, value: T) returns (slot: Option<nat>)
      requires Valid()
      modifies this, values
      ensures Valid() && (values == old(values) || fresh(values))
      ensures slot.Some? <==> pos <= old(size)
      ensures slot.Some? ==> slot.value == pos
      ensures pos < old(size) ==> Elements() == old(Elements())[pos := value]
      ensures pos < old(size) ==> values == old(values) && capacity == old(capacity) && size == old(size)
      ensures pos == old(size) ==> Elements() == old(Elements()) + [value]
      ensures pos == old(size) ==> capacity == GrownCapacity(old(capacity), old(size))
      ensures pos == old(size) < old(capacity) ==> values == old(values)
      ensures pos > old(size) ==> Elements() == old(Elements())
      ensures pos > old(size) ==> values == old(values) && capacity == old(capacity) && size == old(size)
    {
      if pos == size {
        var at := Append(value);
        return Some(at);
      }
      if pos < size {
        values[pos] := value;
        return Some(pos);
      }
      slot := None;
    }

    /** AVectorGet: the value at `pos`, or None past the end. */
    method Get(pos: nat) returns (r: Option<T>)
      requires Valid()
      ensures r.Some? <==> pos < |Elements()|
      ensures r.Some? ==> r.value == Elements()[pos]
    {
      if pos < size {
        r := Some(values[pos]);
      } else {
        r := None;
      }
    }

    /** AVectorSubVector: a new vector of the `n` values from `pos`, each passed through
        `copyValue` when one is given; null unless `0 < n` and `pos + n <= size`. */
    method SubVector(pos: nat, n: nat, copyValue: Option<T -> T>) returns (sub: Vector?<T>)
      requires Valid()
      ensures sub == null <==> !(0 < n && pos + n <= size)
      ensures sub != null ==> fresh(sub) && fresh(sub.values) && sub.Valid()
      ensures sub != null ==> sub.capacity == n && |sub.Elements()| == n
      ensures sub != null ==> forall i :: 0 <= i < n ==>
                                sub.Elements()[i] == Apply(copyValue, Elements()[pos + i])
    {
      if !(0 < n && pos + n <= size) {
        return null;
      }
      sub := new Vector(Some(n));
      sub.size := n;
      var k, p, end := 0, pos, pos + n;
      while p < end
        invariant pos <= p <= end && k == p - pos
        invariant sub.Valid() && sub.size == n && fresh(sub) && fresh(sub.values)
        invariant forall i :: 0 <= i < k ==> sub.values[i] == Apply(copyValue, values[pos + i])
        modifies sub.values
      {
        sub.values[k] := Apply(copyValue, values[p]);
        k, p := k + 1, p + 1;
      }
    }

    /** AVectorCopy: SubVector(0, size), so copying an empty vector yields null. */
    method Copy(copyValue: Option<T -> T>) returns (c: Vector?<T>)
      requires Valid()
      ensures c == null <==> size == 0
      ensures c != null ==> fresh(c) && fresh(c.values) && c.Valid() && |c.Elements()| == size
      ensures c != null ==> forall i :: 0 <= i < size ==>
                              c.Elements()[i] == Apply(copyValue, Elements()[i])
    {
      c := SubVector(0, size, copyValue);
    }

    /** AVectorJoin: append every value of `second` to this vector; `second` is then
        destroyed, so the model says nothing of it afterwards. */
    method Join(second: Vector<T>)
      requires Valid() && second.Valid() && second != this && second.values != values
      modifies this, values
      ensures Valid() && (values == old(values) || fresh(values))
      ensures Elements() == old(Elements()) + old(second.Elements())
      ensures capacity == GrownCapacity(old(capacity), old(size) + old(second.size))
      ensures old(size) + old(second.size) < old(capacity) ==> values == old(values)
    {
      var originalSize := size;
      size := size + second.size;
      MaybeExpand();
      CopyInto(values, originalSize, second.values, second.size);
      assert values[originalSize..size] == old(second.Elements());
      assert values[..size] == values[..originalSize] + values[originalSize..size];
    }

    /** The loop of AVectorJoin: copy `src[..n]` into `dst` from index `at`, leaving
        `dst[..at]` as it was. */
    static method CopyInto(dst: array<T>, at: nat, src: array<T>, n: nat)
      requires dst != src && at + n <= dst.Length && n <= src.Length
      modifies dst
      ensures dst[..at] == old(dst[..at]) && dst[at..at + n] == src[..n]
    {
      var k := 0;
      while k < n
        invariant 0 <= k <= n
        invariant dst[..at] == old(dst[..at]) && dst[at..at + k] == src[..k]
      {
        dst[at + k] := src[k];
        k := k + 1;
      }
    }

    /** AVectorClear as written: every value is handed to the destructor (`freed`), but
        `size` is never reset, so the freed values are still the vector's elements. */
    method ClearAsWritten(hasFreeValue: bool) returns (freed: seq<T>)
      requires Valid()
      ensures freed == if hasFreeValue then Elements() else []
      ensures |Elements()| == size
    {
      freed := [];
      if hasFreeValue {
        var i := 0;
        while i < size
          invariant 0 <= i <= size && freed == values[..i]
        {
          freed := freed + [values[i]];
          i := i + 1;
        }
      }
    }

    /** AVectorClear as intended by its documentation: the values are freed and the
        vector is left empty with its buffer kept. */
    method Clear(hasFreeValue: bool) returns (freed: seq<T>)
      requires Valid()
      modifies this
      ensures Valid() && values == old(values) && capacity == old(capacity)
      ensures freed == (if hasFreeValue then old(Elements()) else [])
      ensures Elements() == []
    {
      freed := ClearAsWritten(hasFreeValue);
      size := 0;
    }
  }
}
