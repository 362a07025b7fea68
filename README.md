# AStruct containers in Dafny

This project models the five containers of the AStruct C library, and proves properties of the model:

- **AHashtable**: a separately chained hash table. It has `capacity + 1` buckets, where `capacity` is always 2^k − 1. A key goes to bucket `hash(key) & capacity`. A new key is prepended to its chain; a key already present has its node overwritten in place. The table grows to `2·capacity + 1` once `size > lists · 10`, where `lists` counts the non-empty buckets.
- **AVector**: a dynamic array. It keeps a `values` buffer, a `size` and a `capacity` that doubles on demand.
- **AList**: a doubly linked list of heap nodes, with a `head`, a `tail` and a `size`.
- **AStack**: a LIFO adapter over a vector.
- **AQueue**: a FIFO adapter over a list.

Each container has its own module: `Hashtables` (hashtable.dfy), `Vectors` (vector.dfy), `Lists` (list.dfy), `Stacks` (stack.dfy) and `Queues` (queue.dfy). Two small modules support them: `Wrappers` (`Option`) and `Bits` (`&`, `|`, `>>` and powers of two on natural numbers).

Each container is a Dafny class whose fields are the C struct's fields, updated in place by methods with `modifies` clauses:

- The vector keeps its `array` buffer.
- The list keeps real `Node` objects linked by `prev`/`next`. A ghost sequence of the nodes, from head to tail, and a ghost sequence of their values say what the pointers mean.
- The hash table keeps an `array` of buckets. Each bucket's chain is a sequence of key/value entries, head first. A ghost `contents` map gives the bindings the table represents.

A C `NULL` result is `None`. A destructor call (`freeKey`, `freeValue`) is an output listing what would be handed to it.

Where the behaviour as written is a defect, both versions are modelled: a member named `…AsWritten` shows the defect on a concrete input, and the corrected member carries the intended property. The rest of the model uses the corrected member. See "## Findings".

Where the library's documentation and its code disagree, the model follows the code:

- `AHashtableClear` is documented as emptying the table. The code frees the nodes and zeroes `size`, but leaves the bucket heads and `lists` unchanged. This is modelled as `Hashtable.ClearAsWritten`.
- Replacing the value of a present key counts in `size` (src/AHashtable.c:276). The model keeps `size` as written. A ghost counter `replaced` records the difference, so that `size == |contents| + replaced`.
- `AHashtableRemove` of an absent key dereferences a null pointer. The model requires that the key be present, and `Hashtable.RemoveChecked` adds the check.

## Model

| member | source | states |
|---|---|---|
| Bits.AndMaskIsMod | src/AHashtable.c:256 | masking with 2^k − 1 is the remainder modulo 2^k |
| Bits.OrAtLeast | src/AHashtable.c:145 | `a \| b` is at least each of `a` and `b` |
| Bits.OrBelow | src/AHashtable.c:145 | two values below 2^p have their `\|` below 2^p |
| Bits.OrKeepsHigh | src/AHashtable.c:145 | or-ing in a value below 2^j keeps the bits at and above j |
| Bits.SmearStep | src/AHashtable.c:143-146 | if the top `s` of `x`'s `p` bits are ones, one `n \|= n >> s` step makes the top `2s` (capped at `p`) ones, and `x` stays below 2^p |
| Bits.BitLength | src/AHashtable.c:143-148 | `m < 2^p`, and `2^(p−1) <= m` when `p > 0`: `p` is the number of binary digits of `m` |
| Bits.BitLengthBelow | src/AHashtable.c:143-148 | a value below 2^k has at most `k` binary digits |
| Bits.BitLengthExact | src/AHashtable.c:143-148 | a value in `[2^k, 2^(k+1))` has exactly `k + 1` binary digits |
| Hashtables.Wrap32 | src/AHashtable.c:134-149 | the result is a 32-bit `int`, and a value already in range is unchanged |
| Hashtables.Bucket | src/AHashtable.c:256 | the bucket index `hash & capacity` never exceeds `capacity` |
| Hashtables.BucketIsRemainder | src/AHashtable.c:256 | for capacity 2^k − 1 the bucket is `hash mod 2^k`, one of the `capacity + 1` buckets |
| Hashtables.Find | src/AHashtable.c:48-61 | `Some(i)`: entry `i` has the key and no earlier entry has it; `None` exactly when no entry of the chain has the key |
| Hashtables.LookupNode | src/AHashtable.c:48-61 | the walk from the chain's head returns the first entry with an equal key, or None |
| Hashtables.EmptyRepresents | src/AHashtable.c:182 | a table of empty buckets represents the empty map and has no non-empty bucket |
| Hashtables.PrependStep | src/AHashtable.c:262-269 | prepending a new key to its own bucket represents the map extended by that binding; the non-empty bucket count grows by 1 exactly when the bucket was empty |
| Hashtables.OverwriteStep | src/AHashtable.c:271-277 | overwriting the found node in place (no new node) represents the map with the key rebound, and the non-empty bucket count and number of bindings stay the same |
| Hashtables.UnlinkStep | src/AHashtable.c:319-342 | unlinking the first node with the key represents the map without it, leaves the other nodes in order, and empties the bucket's count exactly when the chain had one node |
| Hashtables.MoveStep | src/AHashtable.c:113-120 | moving one node to the head of bucket `hash(key) & newCapacity` keeps the new table representing the bindings moved so far and the count of non-empty new buckets exact |
| Hashtables.EntriesAreBindings | src/AHashtable.c:353-378 | the entries of all chains are exactly the table's bindings, each key once, so their number is the number of keys |
| Hashtables.FirstSome | src/AHashtable.c:363-377 | the first non-None callback result, None exactly when every callback returns None |
| Hashtables.VisitedBefore | src/AHashtable.c:365-370 | when the callbacks before entry `j` of bucket `i` all returned None and that entry's returns a value, the entry sits at position `|Flatten(s[..i])| + j` of the traversal order, nothing before it answered, and its answer is the traversal's whatever comes later |
| Hashtables.RoundUpPower2 | src/AHashtable.c:134-149 | upperPower2's result as a value: always a 32-bit `int` (its meaning is stated by the next row) |
| Hashtables.RoundUpPower2IsLeastPower | src/AHashtable.c:134-149 | 0 for n <= 0; for 1 <= n <= 2^30 the least power of two that is at least n; above 2^30 the signed increment overflows to −2^31 |
| Hashtables.UpperPower2 | src/AHashtable.c:134-149 | the decrement, the shift-or loop and the increment compute RoundUpPower2(n) |
| Hashtables.Smear | src/AHashtable.c:143-146 | the shift-or loop turns x into 2^BitLength(x) − 1, all ones below its leading bit |
| Hashtables.InitialCapacity | src/AHashtable.c:176-180 | the corrected initial capacity is positive and fits in an `int` |
| Hashtables.InitialCapacityCases | src/AHashtable.c:176-180 | capacity 63 without a fifth argument or for a hint <= 1; upperPower2(hint) − 1 for 2 <= hint <= 2^30, with hint <= upperPower2(hint) < 2·hint |
| Hashtables.InitialCapacityForm | src/AHashtable.c:176-180 | every initial capacity has the form 2^e − 1 |
| Hashtables.InitialCapacityAsWritten | src/AHashtable.c:176-180 | the capacity as the code computes it, through the unsigned `size_t` field: positive and at most SIZE_MAX |
| Hashtables.NonPositiveHintAsWritten | src/AHashtable.c:176-177 | as written, a hint <= 0 stores 0 − 1 into the unsigned capacity: SIZE_MAX, whose bucket count wraps to 0; the corrected capacity is the default 63 |
| Hashtables.GrowthAllocationAsWritten | src/AHashtable.c:103 | the number of buckets the growth step allocates as written: the old capacity + 1 (no contract; the next row states the consequence) |
| Hashtables.GrowthOverrunAsWritten | src/AHashtable.c:102-116 | after growth a key hashing to 2^e lands in bucket 2^e, outside the old-capacity + 1 buckets allocated as written |
| Hashtables.Hashtable.constructor | src/AHashtable.c:182-190 | `capacity + 1` empty buckets, `size == lists == 0`, the empty map |
| Hashtables.Hashtable.BucketOfKey | src/AHashtable.c:256 | a key's bucket is its hash modulo the number of buckets |
| Hashtables.Hashtable.Bindings | src/AHashtable.c:353-378 | the table's entries are exactly its bindings, one per key |
| Hashtables.Hashtable.MaybeExpand | src/AHashtable.c:91-129 | no change while `size <= lists · 10`; otherwise a new table with capacity `2·capacity + 1` holds the same bindings, with `size` unchanged and `lists` recounted |
| Hashtables.Hashtable.Rehash | src/AHashtable.c:103-123 | every entry moves, none lost or duplicated, into bucket `hash(key) & newCapacity` of `newCapacity + 1` new buckets, and `newLists` is the number of non-empty new buckets |
| Hashtables.Hashtable.MoveChain | src/AHashtable.c:110-121 | moving one old chain adds exactly its bindings to those already moved and keeps the non-empty count exact |
| Hashtables.Hashtable.SetInBucket | src/AHashtable.c:256-279 | a new key is prepended to its bucket with `lists` + 1 iff the bucket was empty; a present key has its entry overwritten in place and the old pair freed; `size` + 1 either way; other buckets unchanged |
| Hashtables.Hashtable.Set | src/AHashtable.c:250-280 | grow exactly when `size > lists * 10` (a fresh table of `2 * capacity + 1 + 1` buckets), and otherwise keep the same table and capacity; then bind the key to the value; `size` increases by 1 even on replacement; the returned pair is `(key, value)`, held by an entry of the table; the old pair goes to the destructors when the key was present |
| Hashtables.Hashtable.Get | src/AHashtable.c:290-301 | the value bound to the key, None when absent; the table is unchanged |
| Hashtables.Hashtable.Remove | src/AHashtable.c:312-343 | for a present key: unlink exactly its node from its bucket, keeping the others in order; `size` − 1 and `lists` − 1 iff the bucket became empty; the key is unbound |
| Hashtables.Hashtable.AbsentKeyAsWritten | src/AHashtable.c:319-333 | for an absent key the walk finds no node, so the unlink at line 333 or 337 dereferences null |
| Hashtables.Hashtable.RemoveChecked | src/AHashtable.c:312-343 | remove with a presence check: an absent key changes nothing and frees nothing |
| Hashtables.Hashtable.Traverse | src/AHashtable.c:353-378 | calls in bucket order, then chain order; the first non-None result is returned immediately: after `visits` calls, the last on the entry that answered and all earlier ones None; when all are None every entry was visited once |
| Hashtables.Hashtable.ClearAsWritten | src/AHashtable.c:201-222 | every entry goes to the destructors and `size` becomes 0, but the buckets, `lists` and the bindings remain |
| Hashtables.Hashtable.Clear | src/AHashtable.c:201-222 | every entry goes to the destructors, all buckets are empty and `size == lists == 0` |
| Hashtables.Create | src/AHashtable.c:154-192 | null iff fewer than two arguments; otherwise an empty valid table with the computed initial capacity and all buckets empty |
| Hashtables.SetOne | src/AHashtable.c:250-280 | one set on a new table binds the key with `size` 1 |
| Hashtables.SetTwo | src/AHashtable.c:250-280 | two sets of distinct keys bind both |
| Hashtables.SetGetTraverseRemove | tests/AHashtable_test.c:28-100 | both keys read back, a traversal visits both, and after removing both the key is gone and `size` is 0 |
| Hashtables.RemoveTwo | src/AHashtable.c:312-343 | removing both keys of a two-key table leaves it empty |
| Hashtables.ReplaceCountsInSize | src/AHashtable.c:271-277 | setting one key twice frees the first pair and leaves one binding, but `size` is 2 |
| Hashtables.StaleEntryAfterClearAsWritten | src/AHashtable.c:201-222 | as written, a key is still found after clear although its entry was freed |
| Hashtables.NothingAfterClear | src/AHashtable.c:201-222 | with the corrected clear the key is gone, and only its entry was freed |
| Vectors.InitialCapacity | src/AVector.c:33-40 | the corrected capacity (the hint when positive, otherwise 16) is always positive |
| Vectors.GrownCapacity | src/AVector.c:98-103 | the capacity the doubling loop ends with (no contract; the next row states what it is) |
| Vectors.GrownCapacityIsLeastDoubling | src/AVector.c:98-103 | the grown capacity exceeds `size`, is the old capacity times a power of two, and is the least such |
| Vectors.InitialCapacityAsWritten | src/AVector.c:36-39 | the capacity as the code computes it, through the unsigned `size_t` field: positive |
| Vectors.NegativeHintAsWritten | src/AVector.c:36 | as written, a negative hint stored into the unsigned capacity passes the `<= 0` test as a huge capacity; the default was intended |
| Vectors.InitialCapacityCorrection | src/AVector.c:36-39 | for every `int` argument the corrected capacity is at most 2^31 − 1, and it differs from the capacity as written exactly when the argument is negative |
| Vectors.MaybeExpandAsWritten | src/AVector.c:94-109 | growth as written: the size is kept and the capacity always ends above it, even when realloc fails and the buffer keeps its old length |
| Vectors.MaybeExpandChecked | src/AVector.c:94-109 | growth that updates the capacity only with the buffer: success leaves room, failure changes nothing |
| Vectors.AppendSlotAsWritten | src/AVector.c:117-125 | append writes slot `size` unless the growth step fails, which happens exactly when the vector is full and realloc fails |
| Vectors.GrowthFailureAsWritten | src/AVector.c:100-108 | as written, a failed realloc leaves a capacity above the buffer, and the next append writes one slot past it |
| Vectors.GrowthFailureChecked | src/AVector.c:94-109 | with the corrected growth a consistent vector stays consistent, and fails only when full |
| Vectors.JoinAsWritten | src/AVector.c:330-347 | join as written: the size grows by `n` whether or not the growth succeeds, which happens exactly when there is room or realloc succeeds |
| Vectors.JoinChecked | src/AVector.c:330-347 | a join that bumps `size` only after a successful growth: success adds `n` with room to spare, failure changes nothing |
| Vectors.JoinFailureAsWritten | src/AVector.c:335-337 | as written, a failed growth leaves `size` above the buffer |
| Vectors.JoinFailureChecked | src/AVector.c:330-347 | the corrected join keeps the vector consistent and succeeds exactly when there is room or realloc succeeds |
| Vectors.Vector.constructor | src/AVector.c:33-51 | an empty vector with the initial capacity |
| Vectors.Vector.MaybeExpand | src/AVector.c:94-109 | capacity becomes the least doubling above `size`, and the old contents are kept; when `size` is below the capacity the buffer and capacity stay as they were |
| Vectors.Vector.Append | src/AVector.c:117-126 | the value goes after the old elements, at the returned slot `old(size)`; the capacity becomes the grown capacity, and a vector with room keeps its buffer |
| Vectors.Vector.Insert | src/AVector.c:138-159 | for `pos <= size` the contents become `old[..pos] + [value] + old[pos..]`, the returned slot is `pos`, the capacity is the grown capacity and a vector with room keeps its buffer; otherwise it returns None and changes nothing, buffer and capacity included |
| Vectors.Vector.Replace | src/AVector.c:174-196 | `pos < size` overwrites only index `pos` in the same buffer and frees the old value; `pos == size` appends as Append does and frees nothing; either way the returned slot is `pos`; `pos > size` returns None and changes nothing, buffer and capacity included |
| Vectors.Vector.Remove | src/AVector.c:207-224 | `pos < size` returns `old[pos]` and leaves the contents without index `pos`; otherwise None with no change |
| Vectors.Vector.Set | src/AVector.c:236-253 | `pos < size` overwrites only index `pos` in the same buffer; `pos == size` appends as Append does; either way the returned slot is `pos`; `pos > size` returns None and changes nothing, buffer and capacity included |
| Vectors.Vector.Get | src/AVector.c:261-269 | `values[pos]` for `pos < size`, otherwise None |
| Vectors.Vector.SubVector | src/AVector.c:282-306 | null unless `0 < n && pos + n <= size`; otherwise a new vector of size and capacity `n` holding the (copied) values of `[pos, pos + n)` |
| Vectors.Vector.Copy | src/AVector.c:316-319 | null for an empty vector; otherwise a new vector with the (copied) values in order |
| Vectors.Vector.Join | src/AVector.c:330-347 | the first vector holds its old values followed by the second's; its capacity is the grown capacity for the summed size, and it keeps its buffer when that size is below the old capacity |
| Vectors.Vector.ClearAsWritten | src/AVector.c:60-71 | every value goes to the destructor, but the vector keeps its size and values |
| Vectors.Vector.Clear | src/AVector.c:60-71 | every value goes to the destructor and the vector is empty, with its buffer and capacity kept |
| Stacks.Stack.constructor | src/AStack.c:21-41 | a new empty vector with the given capacity or the default, and the sizes agree |
| Stacks.Stack.Push | src/AStack.c:83-96 | the value is appended to the vector and becomes the top, at the returned slot; the size is copied from the vector |
| Stacks.Stack.Top | src/AStack.c:103-111 | the last of the stack's values, None when the size is 0 |
| Stacks.Stack.Pop | src/AStack.c:120-131 | removes and returns the top, or None with no change on an empty stack |
| Stacks.Stack.ClearAsWritten | src/AStack.c:51-58 | the stack's size becomes 0 while the vector's size stays as it was |
| Stacks.Stack.Clear | src/AStack.c:51-58 | over a vector clear that empties the vector, both sizes are 0 |
| Stacks.LifoOrder | src/AStack.c:83-131 | two pushes pop in reverse order, and a third pop is None |
| Stacks.StaleValueAfterClearAsWritten | src/AStack.c:51-58 | as written, a value pushed before a clear pops out again after the next push |
| Stacks.NoStaleValueAfterClear | src/AStack.c:51-58 | with the corrected clear only the value pushed after the clear comes out |
| Lists.Node.constructor | src/AList.c:100-105 | a node with the value and no neighbours |
| Lists.List.constructor | src/AList.c:38-44 | an empty list |
| Lists.List.Walk | src/AList.c:277-288 | the walk from the nearer end reaches the node at `pos`, or the tail for any `pos` past the end |
| Lists.List.Clear | src/AList.c:54-73 | every value goes to the destructor when one is given, and the list is empty |
| Lists.List.Append | src/AList.c:98-123 | a new last node with the value; the others keep their order |
| Lists.List.Prepend | src/AList.c:157-182 | a new first node with the value; the others keep their order |
| Lists.List.Last | src/AList.c:130-135 | the last value, None on an empty list |
| Lists.List.First | src/AList.c:189-194 | the first value, None on an empty list |
| Lists.List.Remove | src/AList.c:380-415 | unlinks the node at index k and returns its value, leaving the others in order; None with no change for a null node or an empty list |
| Lists.List.UnlinkOnly | src/AList.c:390-393 | removing the only node empties the list |
| Lists.List.UnlinkHead | src/AList.c:394-398 | removing the head of a longer list removes index 0 |
| Lists.List.UnlinkTail | src/AList.c:399-403 | removing the tail of a longer list removes the last index |
| Lists.List.UnlinkMiddle | src/AList.c:404-408 | bypassing a middle node removes its index |
| Lists.List.LinkedAfterRemove | src/AList.c:390-412 | the pointer updates of an unlink leave a well-formed list |
| Lists.List.PopLast | src/AList.c:144-149 | removes and returns the last value, None when empty |
| Lists.List.PopFirst | src/AList.c:203-208 | removes and returns the first value, None when empty |
| Lists.List.Insert | src/AList.c:219-243 | `prev == tail` appends; a null `prev` on a non-empty list gives null with no change; otherwise the value goes right after `prev` |
| Lists.List.LinkAfter | src/AList.c:230-237 | linking a node after index k inserts it at index k + 1 |
| Lists.List.LinkedAfterInsert | src/AList.c:230-237 | the pointer updates of an insert leave a well-formed list |
| Lists.List.InsertAt | src/AList.c:254-291 | for `pos <= size` the value is at index `pos` of `old[..pos] + [value] + old[pos..]`; null with no change for `pos > size` |
| Lists.List.ValueAt | src/AList.c:299-327 | the value at `pos`, None for `pos >= size` |
| Lists.List.ReplaceAt | src/AList.c:338-370 | for `pos < size` returns the old value and sets only index `pos`; None with no change otherwise |
| Lists.List.RemoveAt | src/AList.c:425-447 | removes and returns the value at `pos`, or the tail's for any `pos` past the end |
| Lists.List.Copy | src/AList.c:458-475 | a new list of the same size with the (copied) values in order |
| Lists.List.SplitReal | src/AList.c:481-504 | this list keeps the nodes before the split node, the new list gets the rest, and the sizes are not touched |
| Lists.List.SplitAtHead | src/AList.c:487-492 | a split at the head moves every node |
| Lists.List.SplitInside | src/AList.c:493-500 | a split at an inner node cuts the chain there |
| Lists.List.Cut | src/AList.c:497-499 | only the two pointers at the cut change |
| Lists.List.AfterSplit | src/AList.c:481-504 | after the pointer updates of a split both lists are well formed and their nodes are disjoint |
| Lists.List.LinkedAfterSplit | src/AList.c:491-498 | the kept prefix is well formed |
| Lists.List.LinkedAfterSplitNew | src/AList.c:489-499 | the moved suffix is well formed |
| Lists.List.DisjointAfterSplit | src/AList.c:481-504 | the two lists share no node and together hold the old ones |
| Lists.List.Split | src/AList.c:517-536 | this list keeps `[0, k)`, the new one holds `[k, size)`, and the counted sizes sum to the original |
| Lists.List.Recount | src/AList.c:575-576 | the new list's size becomes `n` and this list's size drops by `n`, the chains untouched |
| Lists.List.SplitAtAsWritten | src/AList.c:550-580 | as written: for `pos < size` a correct split; at `pos == size` the tail moves while the sizes claim it stayed |
| Lists.List.SplitAt | src/AList.c:550-580 | null with no change when there is no node at `pos`; otherwise this list keeps `[0, pos)` and the new list holds `[pos, size)` |
| Lists.List.Join | src/AList.c:590-598 | the first list holds both lists' values in order, with the summed size |
| Lists.List.LinkedAfterJoin | src/AList.c:592-596 | the pointer updates of a join leave a well-formed list |
| Queues.Queue.constructor | src/AQueue.c:21-34 | an empty queue over a new empty list |
| Queues.Queue.Clear | src/AQueue.c:44-51 | every value goes to the destructor when one is given, and both sizes are 0 |
| Queues.Queue.Enqueue | src/AQueue.c:76-89 | the value is prepended to the list in the returned fresh node, now the list's first; the size is copied from the list |
| Queues.Queue.Front | src/AQueue.c:96-104 | the oldest value (the list's last), None when empty |
| Queues.Queue.Dequeue | src/AQueue.c:113-124 | removes and returns the oldest value, None with no change when empty |
| Queues.FifoOrder | tests/AQueue_test.c:23-50 | two enqueued values dequeue in the order they entered, and a third dequeue is None |

## Left out

- Allocation failure (`malloc`, `calloc`, `realloc` returning NULL) is not modelled in the class methods, because allocation always succeeds in Dafny. The two vector failure paths that corrupt state are modelled on a value-level `Shape` with a `reallocOk` flag.
- The `ANew` varargs factory and `destroy` functions are not part of this model. Each constructor takes explicit parameters, and `Hashtables.Create` takes the argument count.
- The hash function is a parameter `K -> nat` and key comparison is equality. MurmurHash (src/AHash.c) and the comparators (src/AComp.c) are not part of this model.
- Destructor and copy callbacks are foreign calls. A destructor call is modelled as the values or entries it would receive, returned in order. A copy callback is an optional pure function (`Apply`).
- Which destructors a hash table has (arguments 3 and 4 of create) is not modelled separately. Every freed entry is reported.
- A stored NULL value cannot be told apart from an absent one in C. The model's `Option` results draw that distinction, so a `None` value is not modelled.
- Hash chains are sequences of entries, not heap nodes. The model therefore does not capture node identity: `set` returns the `APair*` view of its node (src/AHashtable.c:279) and `traverse` passes one to the callback (src/AHashtable.c:365); the model gives a key/value `Entry` instead, which is a copy rather than a reference into the table.
- Hashtables.UpperPower2: models `int` as 32 bits, and the increment above 2^30 as a two's-complement wrap, where C leaves signed overflow undefined.
- `size_t` is taken as 64 bits where the code's unsigned wrap-around is modelled, in InitialCapacityAsWritten of both modules. Everywhere else sizes and positions are unbounded naturals.
- Vectors.Vector.SubVector: does not model the `size_t` wrap of the bounds test `pos + size <= self->size` (src/AVector.c:287). With `pos` = 2^64 − 1 and `size` 2 on a non-empty vector the test passes, the copy loop (src/AVector.c:297) runs zero times, and the code returns a size-2 vector of uninitialised slots, where the model returns null. The `(int)size` cast at src/AVector.c:289 is not modelled either.
- Hashtables.Hashtable.Remove: requires the key to be present, because the code dereferences null otherwise. RemoveChecked is the total version.
- Hashtables.Hashtable.MaybeExpand: allocates `newCapacity + 1` buckets, not the old capacity + 1 of the code, which would overrun the new table (see "## Findings").
- Lists.List.RemoveAt: requires `size > 0`, because on an empty list the walk dereferences a null tail.
- Lists.List.Join: requires both lists to be non-empty, because the code dereferences both ends.
- Lists.List.Remove: requires a non-null node to belong to the list, because unlinking a foreign node is undefined.
- Lists.List.Insert: requires a non-null `prev` to belong to the list. The node the code allocates and leaks for a null `prev` on a non-empty list is not modelled.
- Lists.List.SplitAtAsWritten: requires `size > 0` and `pos <= size`. On an empty list the walk dereferences null, and for `pos > size` the unsigned `size − pos` wraps.
- Lists.List.Split: requires a non-null node to belong to the list, and requires a non-null node on a non-empty list, because a null node there makes the split dereference `node->prev` (src/AList.c:497).
- Vectors.MaybeExpandChecked: requires the capacity to match the buffer, as it does in any vector that has not gone through a failed growth.
- Vectors.Vector.Join: `second` is destroyed without a value destructor (src/AVector.c:341), so its values now belong to the first vector; the model says nothing about `second` afterwards.
- Stacks.Stack.Push and Queues.Queue.Enqueue: do not model the NULL result of a failed append or prepend, since allocation always succeeds here.
- Vectors.Vector.Append, Insert, Replace, Set and Stacks.Stack.Push return the index of the stored value where the code returns `&self->values[i]`. A pointer into the buffer goes stale when a later growth moves the buffer; the model does not capture that aliasing, though the contracts do say when the buffer stays the same.

## Findings

| source | as written | input that shows it | evidently intended | confidence | as-written member | corrected member |
|---|---|---|---|---|---|---|
| src/AHashtable.c:103 | growth allocates `capacity + 1` buckets but indexes them with `newCapacity` | capacity 2^e − 1, a node whose hash is 2^e: it goes to bucket 2^e, past the allocation | allocate `newCapacity + 1` buckets | high (not executed) | Hashtables.GrowthOverrunAsWritten | Hashtables.Hashtable.Rehash |
| src/AHashtable.c:201-222 | clear frees every node but keeps the bucket heads and `lists` | set k := v, clear, get k: returns the freed v | reset every bucket and `lists` | high (not executed) | Hashtables.StaleEntryAfterClearAsWritten | Hashtables.NothingAfterClear |
| src/AHashtable.c:176-177 | `upperPower2(hint) − 1` is stored into the unsigned capacity before the `<= 0` test | five arguments with hint 0: capacity SIZE_MAX, bucket count 0 | the default capacity 63 | high (not executed) | Hashtables.NonPositiveHintAsWritten | Hashtables.InitialCapacityCases |
| src/AHashtable.c:331-338 | remove unlinks `current` without checking that the walk found the key | remove of a key not in the table: `current` is NULL | no change for an absent key | high (not executed) | Hashtables.Hashtable.AbsentKeyAsWritten | Hashtables.Hashtable.RemoveChecked |
| src/AVector.c:36 | a negative `int` hint is stored into the unsigned capacity before the `<= 0` test | hint −1: capacity 2^64 − 1 | the default capacity 16 | high (not executed) | Vectors.NegativeHintAsWritten | Vectors.InitialCapacityCorrection |
| src/AVector.c:60-71 | clear frees the values but never resets `size` | stack: push a, clear, push b, pop, pop: returns b, then the freed a | set `size` to 0 | high (not executed) | Stacks.StaleValueAfterClearAsWritten | Stacks.NoStaleValueAfterClear |
| src/AVector.c:102-108 | capacity is doubled before `realloc`, which may fail | full vector of capacity c, realloc fails: capacity 2c with c slots; the next append writes slot c | change the capacity only after a successful realloc | medium (not executed) | Vectors.GrowthFailureAsWritten | Vectors.GrowthFailureChecked |
| src/AVector.c:335-337 | join adds the second size before the growth that may fail | full vector of capacity c, join of n > 0 values with realloc failing: size c + n with c slots | add the size only after a successful growth | medium (not executed) | Vectors.JoinFailureAsWritten | Vectors.JoinFailureChecked |
| src/AList.c:575-576 | splitAt has no bounds check; at `pos == size` the walk stops at the tail | a list of size 3, splitAt(3): the tail moves to the new list, whose size is 0, while the first keeps size 3 over 2 nodes | no split (NULL) when there is no node at `pos` | high (not executed) | Lists.List.SplitAtAsWritten | Lists.List.SplitAt |
