/** The separately chained hash table. It has `capacity + 1` buckets, where `capacity` has
    the form 2^k - 1, and a key goes to bucket `hash(key) & capacity`. A new key is
    prepended to its bucket's chain. The table grows once it holds more than ten nodes per
    non-empty bucket on average. Chains are modelled as sequences of entries, head first;
    the key comparison is equality and the hash is a function of the key. */
module Hashtables {
  import opened Wrappers
  import opened Bits

  /** Growth happens once `size` exceeds this many nodes per non-empty bucket. */
  const MaxNodes: nat := 10
  /** The default number of buckets; the capacity is one less. */
  const DefaultCapacity: nat := 64

  const IntMin: int := -0x8000_0000
  const IntMax: int := 0x7FFF_FFFF
  /** The largest value of the 64-bit `size_t`. */
  const SizeMax: nat := 0xFFFF_FFFF_FFFF_FFFF

  /** A node's key and value: the pair that `set` returns and `traverse` hands out. */
  datatype Entry<K, V> = Entry(key: K, value: V)

  /** A 32-bit signed result wrapped into the range of `int`. */
  function Wrap32(v: int): (r: int)
    ensures IntMin <= r <= IntMax
    ensures IntMin <= v <= IntMax ==> r == v
  {
    (v + 0x8000_0000) % 0x1_0000_0000 - 0x8000_0000
  }

  /** The bucket of a key whose hash is `h`: `h & capacity`. */
  function Bucket(h: nat, capacity: nat): (b: nat)
    ensures b <= capacity
  {
    AndAtMost(h, capacity);
    And(h, capacity)
  }

  /** With `capacity == 2^k - 1` the mask is the remainder modulo the number of buckets. */
  lemma BucketIsRemainder(h: nat, k: nat)
    ensures Bucket(h, Pow2(k) - 1) == h % Pow2(k)
  {
    AndMaskIsMod(h, k);
  }

  function MapGet<K, V>(m: map<K, V>, k: K): Option<V>
  {
    if k in m then Some(m[k]) else None
  }

  /** Two maps that answer every lookup alike are equal. */
  lemma MapGetExtensional<K, V>(m1: map<K, V>, m2: map<K, V>)
    requires forall k :: MapGet(m1, k) == MapGet(m2, k)
    ensures m1 == m2
  {
    assert forall k :: k in m1 <==> MapGet(m1, k).Some?;
    assert forall k :: k in m1 ==> m1[k] == MapGet(m2, k).value;
  }

  // Chains

  /** The position of the first entry of `chain` whose key equals `key`: what lookupNode
      finds by walking the chain from its head. */
  function Find<K(==), V>(chain: seq<Entry<K, V>>, key: K): (r: Option<nat>)
    ensures r.Some? ==> r.value < |chain| && chain[r.value].key == key
    ensures r.Some? ==> forall j :: 0 <= j < r.value ==> chain[j].key != key
    ensures r.None? <==> forall j :: 0 <= j < |chain| ==> chain[j].key != key
  {
    if |chain| == 0 then None
    else if chain[0].key == key then Some(0)
    else match Find(chain[1..], key)
      case None => None
      case Some(i) => Some(i + 1)
  }

  /** The value a lookup of `key` in `chain` yields. */
  function ChainValue<K(==), V>(chain: seq<Entry<K, V>>, key: K): Option<V>
  {
    match Find(chain, key)
    case None => None
    case Some(i) => Some(chain[i].value)
  }

  ghost predicate KeysUnique<K, V>(chain: seq<Entry<K, V>>)
  {
    forall i, j :: 0 <= i < j < |chain| ==> chain[i].key != chain[j].key
  }

  /** In a chain without repeated keys every entry is what a lookup of its key finds. */
  lemma ChainValueAt<K, V>(chain: seq<Entry<K, V>>, t: nat)
    requires KeysUnique(chain) && t < |chain|
    ensures Find(chain, chain[t].key) == Some(t)
    ensures ChainValue(chain, chain[t].key) == Some(chain[t].value)
  {
  }

  lemma ChainValueAbsent<K, V>(chain: seq<Entry<K, V>>, key: K)
    requires forall j :: 0 <= j < |chain| ==> chain[j].key != key
    ensures ChainValue(chain, key) == None
  {
  }

  /** Extending a chain at its end changes only the lookups that found nothing. */
  lemma ChainValueSnoc<K, V>(chain: seq<Entry<K, V>>, e: Entry<K, V>, key: K)
    ensures ChainValue(chain + [e], key)
         == if ChainValue(chain, key).Some? then ChainValue(chain, key)
            else if e.key == key then Some(e.value) else None
  {
    var c := chain + [e];
    assert forall j :: 0 <= j < |chain| ==> c[j] == chain[j];
    assert c[|chain|] == e;
  }

  // Tables

  /** The entries in traversal order: bucket by bucket, each chain from its head. */
  ghost function Flatten<K, V>(s: seq<seq<Entry<K, V>>>): seq<Entry<K, V>>
  {
    if |s| == 0 then [] else Flatten(s[..|s| - 1]) + s[|s| - 1]
  }

  /** The number of non-empty buckets: what the `lists` field counts. */
  ghost function NonEmpty<K, V>(s: seq<seq<Entry<K, V>>>): nat
  {
    if |s| == 0 then 0 else NonEmpty(s[..|s| - 1]) + (if s[|s| - 1] == [] then 0 else 1)
  }

  lemma {:induction false} FlattenConcat<K, V>(a: seq<seq<Entry<K, V>>>, b: seq<seq<Entry<K, V>>>)
    ensures Flatten(a + b) == Flatten(a) + Flatten(b)
    decreases |b|
  {
    if |b| > 0 {
      var c := a + b;
      assert c[..|c| - 1] == a + b[..|b| - 1];
      FlattenConcat(a, b[..|b| - 1]);
    } else {
      assert a + b == a;
    }
  }

  lemma {:induction false} FlattenUpdate<K, V>(s: seq<seq<Entry<K, V>>>, b: nat, c: seq<Entry<K, V>>)
    requires b < |s|
    ensures |Flatten(s[b := c])| == |Flatten(s)| - |s[b]| + |c|
    ensures NonEmpty(s[b := c]) == NonEmpty(s) - (if s[b] == [] then 0 else 1) + (if c == [] then 0 else 1)
    decreases |s|
  {
    var n := |s| - 1;
    var u := s[b := c];
    if b < n {
      assert u[..n] == s[..n][b := c];
      FlattenUpdate(s[..n], b, c);
    } else {
      assert u[..n] == s[..n];
    }
  }

  lemma {:induction false} FlattenMember<K, V>(s: seq<seq<Entry<K, V>>>, e: Entry<K, V>)
    ensures e in Flatten(s) <==> exists b, t :: 0 <= b < |s| && 0 <= t < |s[b]| && s[b][t] == e
    decreases |s|
  {
    if |s| > 0 {
      var n := |s| - 1;
      var front := s[..n];
      FlattenMember(front, e);
      assert Flatten(s) == Flatten(front) + s[n];
      if e in s[n] {
        var t :| 0 <= t < |s[n]| && s[n][t] == e;
        assert 0 <= n < |s| && 0 <= t < |s[n]| && s[n][t] == e;
      } else if e in Flatten(front) {
        var b, t :| 0 <= b < |front| && 0 <= t < |front[b]| && front[b][t] == e;
        assert 0 <= b < |s| && 0 <= t < |s[b]| && s[b][t] == e;
      }
      if exists b, t :: 0 <= b < |s| && 0 <= t < |s[b]| && s[b][t] == e {
        var b, t :| 0 <= b < |s| && 0 <= t < |s[b]| && s[b][t] == e;
        if b < n {
          assert front[b][t] == e;
        } else {
          assert e in s[n];
        }
      }
    }
  }

  /** What a lookup of `key` finds in the buckets `s`. */
  ghost function Lookup<K, V>(s: seq<seq<Entry<K, V>>>, hash: K -> nat, capacity: nat, key: K): Option<V>
  {
    var b := Bucket(hash(key), capacity);
    if b < |s| then ChainValue(s[b], key) else None
  }

  /** Every entry sits in the bucket its key hashes to. */
  ghost predicate Placed<K, V>(s: seq<seq<Entry<K, V>>>, hash: K -> nat, capacity: nat)
  {
    forall b, t :: 0 <= b < |s| && 0 <= t < |s[b]| ==> Bucket(hash(s[b][t].key), capacity) == b
  }

  ghost predicate ChainsUnique<K, V>(s: seq<seq<Entry<K, V>>>)
  {
    forall b :: 0 <= b < |s| ==> KeysUnique(s[b])
  }

  /** The buckets `s` hold the map `m`: entries are placed by their hash, no chain repeats
      a key, every lookup answers as `m` does, and there is one entry per key. */
  ghost predicate Represents<K(!new), V>(s: seq<seq<Entry<K, V>>>, hash: K -> nat, capacity: nat, m: map<K, V>)
  {
    && Placed(s, hash, capacity)
    && ChainsUnique(s)
    && (forall k :: Lookup(s, hash, capacity, k) == MapGet(m, k))
    && |Flatten(s)| == |m|
  }

  /** Empty buckets hold the empty map. */
  lemma EmptyRepresents<K(!new), V>(s: seq<seq<Entry<K, V>>>, hash: K -> nat, capacity: nat)
    requires forall b :: 0 <= b < |s| ==> s[b] == []
    ensures Represents(s, hash, capacity, map[])
    ensures NonEmpty(s) == 0
  {
    EmptyFlatten(s);
    forall k
      ensures Lookup(s, hash, capacity, k) == MapGet(map[], k)
    {
      var b := Bucket(hash(k), capacity);
      if b < |s| {
        assert Find(s[b], k) == None;
      }
    }
  }

  lemma {:induction false} EmptyFlatten<K, V>(s: seq<seq<Entry<K, V>>>)
    requires forall b :: 0 <= b < |s| ==> s[b] == []
    ensures Flatten(s) == [] && NonEmpty(s) == 0
    decreases |s|
  {
    if |s| > 0 {
      EmptyFlatten(s[..|s| - 1]);
    }
  }

  /** Replacing one bucket's chain by a chain that answers every lookup of that bucket's
      keys as `m'` does, where `m'` agrees with `m` on the other buckets' keys. */
  lemma ReplaceChain<K(!new), V>(s: seq<seq<Entry<K, V>>>, hash: K -> nat, capacity: nat, m: map<K, V>,
                                 b: nat, c: seq<Entry<K, V>>, m': map<K, V>)
    requires Represents(s, hash, capacity, m) && b < |s|
    requires forall t :: 0 <= t < |c| ==> Bucket(hash(c[t].key), capacity) == b
    requires KeysUnique(c)
    requires forall k :: Bucket(hash(k), capacity) == b ==> ChainValue(c, k) == MapGet(m', k)
    requires forall k :: Bucket(hash(k), capacity) != b ==> MapGet(m', k) == MapGet(m, k)
    requires |m'| == |m| - |s[b]| + |c|
    ensures Represents(s[b := c], hash, capacity, m')
  {
    var u := s[b := c];
    assert Placed(u, hash, capacity);
    forall k
      ensures Lookup(u, hash, capacity, k) == MapGet(m', k)
    {
      assert Lookup(s, hash, capacity, k) == MapGet(m, k);
    }
    FlattenUpdate(s, b, c);
  }

  /** Prepending an entry for a key the chain lacks adds that key's lookup. */
  lemma PrependChain<K, V>(c: seq<Entry<K, V>>, e: Entry<K, V>)
    requires KeysUnique(c) && ChainValue(c, e.key) == None
    ensures KeysUnique([e] + c)
    ensures forall k :: ChainValue([e] + c, k) == if k == e.key then Some(e.value) else ChainValue(c, k)
  {
    var c' := [e] + c;
    assert c'[1..] == c;
    assert forall j :: 1 <= j < |c'| ==> c'[j] == c[j - 1];
  }

  /** Overwriting the entry at `i` with one of the same key changes only that lookup. */
  lemma OverwriteChain<K, V>(c: seq<Entry<K, V>>, i: nat, e: Entry<K, V>)
    requires KeysUnique(c) && i < |c| && c[i].key == e.key
    ensures KeysUnique(c[i := e])
    ensures forall k :: ChainValue(c[i := e], k) == if k == e.key then Some(e.value) else ChainValue(c, k)
  {
    var c' := c[i := e];
    assert forall j :: 0 <= j < |c| ==> c'[j].key == c[j].key;
    forall k
      ensures ChainValue(c', k) == if k == e.key then Some(e.value) else ChainValue(c, k)
    {
      if k == e.key {
        ChainValueAt(c', i);
      } else if Find(c, k).Some? {
        ChainValueAt(c, Find(c, k).value);
        ChainValueAt(c', Find(c, k).value);
      } else {
        ChainValueAbsent(c', k);
      }
    }
  }

  /** Unlinking the entry at `i` drops that key's lookup and keeps the others. */
  lemma UnlinkChain<K, V>(c: seq<Entry<K, V>>, i: nat)
    requires KeysUnique(c) && i < |c|
    ensures KeysUnique(c[..i] + c[i + 1..])
    ensures forall k :: ChainValue(c[..i] + c[i + 1..], k) == if k == c[i].key then None else ChainValue(c, k)
  {
    var c' := c[..i] + c[i + 1..];
    UnlinkedAt(c, i);
    forall k
      ensures ChainValue(c', k) == if k == c[i].key then None else ChainValue(c, k)
    {
      if k == c[i].key {
        ChainValueAbsent(c', k);
      } else if Find(c', k).Some? {
        var j := Find(c', k).value;
        ChainValueAt(c', j);
        ChainValueAt(c, if j < i then j else j + 1);
      } else {
        UnlinkedAbsent(c, i, k);
      }
    }
  }

  /** Where the entries of a chain with entry `i` unlinked come from. */
  lemma UnlinkedAt<K, V>(c: seq<Entry<K, V>>, i: nat)
    requires KeysUnique(c) && i < |c|
    ensures var c' := c[..i] + c[i + 1..];
            && |c'| == |c| - 1
            && (forall j :: 0 <= j < |c'| ==> c'[j] == c[if j < i then j else j + 1])
            && KeysUnique(c')
  {
    var c' := c[..i] + c[i + 1..];
    assert forall j :: 0 <= j < i ==> c'[j] == c[j];
    assert forall j :: i <= j < |c'| ==> c'[j] == c[j + 1];
  }

  /** A key other than the unlinked one that the shorter chain lacks, the chain lacked too. */
  lemma UnlinkedAbsent<K, V>(c: seq<Entry<K, V>>, i: nat, k: K)
    requires KeysUnique(c) && i < |c| && c[i].key != k
    requires Find(c[..i] + c[i + 1..], k).None?
    ensures ChainValue(c, k) == None
  {
    var c' := c[..i] + c[i + 1..];
    UnlinkedAt(c, i);
    forall j | 0 <= j < |c| && j != i
      ensures c[j].key != k
    {
      assert c[j] == c'[if j < i then j else j - 1];
    }
    ChainValueAbsent(c, k);
  }

  /** Prepending an entry for a new key to its bucket adds exactly that binding. */
  lemma PrependRepresents<K(!new), V>(s: seq<seq<Entry<K, V>>>, hash: K -> nat, capacity: nat, m: map<K, V>, e: Entry<K, V>)
    requires Represents(s, hash, capacity, m) && e.key !in m
    requires Bucket(hash(e.key), capacity) < |s|
    ensures var b := Bucket(hash(e.key), capacity);
            Represents(s[b := [e] + s[b]], hash, capacity, m[e.key := e.value])
  {
    var b := Bucket(hash(e.key), capacity);
    assert Lookup(s, hash, capacity, e.key) == None;
    PrependChain(s[b], e);
    var c := [e] + s[b];
    assert forall t :: 1 <= t < |c| ==> c[t] == s[b][t - 1];
    forall k | Bucket(hash(k), capacity) == b
      ensures ChainValue(c, k) == MapGet(m[e.key := e.value], k)
    {
      assert Lookup(s, hash, capacity, k) == MapGet(m, k);
    }
    ReplaceChain(s, hash, capacity, m, b, c, m[e.key := e.value]);
  }

  /** Overwriting the entry of a present key changes only that key's binding. */
  lemma OverwriteRepresents<K(!new), V>(s: seq<seq<Entry<K, V>>>, hash: K -> nat, capacity: nat, m: map<K, V>, e: Entry<K, V>)
    requires Represents(s, hash, capacity, m) && e.key in m
    requires Bucket(hash(e.key), capacity) < |s|
    ensures var b := Bucket(hash(e.key), capacity);
            Find(s[b], e.key).Some? &&
            Represents(s[b := s[b][Find(s[b], e.key).value := e]], hash, capacity, m[e.key := e.value])
  {
    var b := Bucket(hash(e.key), capacity);
    assert Lookup(s, hash, capacity, e.key) == Some(m[e.key]);
    var i := Find(s[b], e.key).value;
    OverwriteChain(s[b], i, e);
    var c := s[b][i := e];
    forall k | Bucket(hash(k), capacity) == b
      ensures ChainValue(c, k) == MapGet(m[e.key := e.value], k)
    {
      assert Lookup(s, hash, capacity, k) == MapGet(m, k);
    }
    ReplaceChain(s, hash, capacity, m, b, c, m[e.key := e.value]);
  }

  /** Unlinking the entry of a present key removes exactly that binding. */
  lemma UnlinkRepresents<K(!new), V>(s: seq<seq<Entry<K, V>>>, hash: K -> nat, capacity: nat, m: map<K, V>, key: K)
    requires Represents(s, hash, capacity, m) && key in m
    requires Bucket(hash(key), capacity) < |s|
    ensures var b := Bucket(hash(key), capacity);
            Find(s[b], key).Some? &&
            var i := Find(s[b], key).value;
            Represents(s[b := s[b][..i] + s[b][i + 1..]], hash, capacity, m - {key})
  {
    var b := Bucket(hash(key), capacity);
    assert Lookup(s, hash, capacity, key) == Some(m[key]);
    var i := Find(s[b], key).value;
    UnlinkChain(s[b], i);
    var c := s[b][..i] + s[b][i + 1..];
    assert forall t :: 0 <= t < |c| ==> c[t] == s[b][if t < i then t else t + 1];
    forall k | Bucket(hash(k), capacity) == b
      ensures ChainValue(c, k) == MapGet(m - {key}, k)
    {
      assert Lookup(s, hash, capacity, k) == MapGet(m, k);
    }
    assert |m - {key}| == |m| - 1 by {
      assert (m - {key}).Keys == m.Keys - {key};
    }
    ReplaceChain(s, hash, capacity, m, b, c, m - {key});
  }

  /** `done` is `moved` extended by the bindings that lookups in `chain` find. */
  ghost predicate Extends<K(!new), V>(done: map<K, V>, moved: map<K, V>, chain: seq<Entry<K, V>>)
  {
    forall k :: MapGet(done, k) == if ChainValue(chain, k).Some? then ChainValue(chain, k) else MapGet(moved, k)
  }

  /** One step of moving a chain into a new table: its `j`-th entry is prepended to its new
      bucket, which extends the moved map by that entry's binding. */
  lemma MoveStep<K(!new), V>(s: seq<seq<Entry<K, V>>>, hash: K -> nat, capacity: nat,
                             moved: map<K, V>, done: map<K, V>, chain: seq<Entry<K, V>>, j: nat)
    requires |s| == capacity + 1 && Represents(s, hash, capacity, done)
    requires KeysUnique(chain) && j < |chain|
    requires forall t :: 0 <= t < |chain| ==> chain[t].key !in moved
    requires Extends(done, moved, chain[..j])
    ensures var e := chain[j];
            var b := Bucket(hash(e.key), capacity);
            && Represents(s[b := [e] + s[b]], hash, capacity, done[e.key := e.value])
            && NonEmpty(s[b := [e] + s[b]]) == NonEmpty(s) + (if s[b] == [] then 1 else 0)
            && Extends(done[e.key := e.value], moved, chain[..j + 1])
  {
    var e := chain[j];
    var b := Bucket(hash(e.key), capacity);
    assert e.key !in done by {
      assert forall t :: 0 <= t < j ==> chain[..j][t].key != e.key;
      ChainValueAbsent(chain[..j], e.key);
      assert MapGet(done, e.key) == MapGet(moved, e.key);
    }
    PrependRepresents(s, hash, capacity, done, e);
    FlattenUpdate(s, b, [e] + s[b]);
    ExtendsStep(done, moved, chain, j);
  }

  lemma ExtendsStep<K(!new), V>(done: map<K, V>, moved: map<K, V>, chain: seq<Entry<K, V>>, j: nat)
    requires KeysUnique(chain) && j < |chain| && Extends(done, moved, chain[..j])
    ensures Extends(done[chain[j].key := chain[j].value], moved, chain[..j + 1])
  {
    var e := chain[j];
    var done' := done[e.key := e.value];
    assert chain[..j + 1] == chain[..j] + [e];
    assert forall t :: 0 <= t < j ==> chain[..j][t].key != e.key;
    ChainValueAbsent(chain[..j], e.key);
    forall k
      ensures MapGet(done', k) ==
                if ChainValue(chain[..j + 1], k).Some? then ChainValue(chain[..j + 1], k) else MapGet(moved, k)
    {
      ChainValueSnoc(chain[..j], e, k);
      assert MapGet(done, k) ==
        if ChainValue(chain[..j], k).Some? then ChainValue(chain[..j], k) else MapGet(moved, k);
    }
  }

  /** `moved` holds exactly the bindings of `m` whose keys hash below bucket `i`. */
  ghost predicate MovedBelow<K(!new), V>(moved: map<K, V>, m: map<K, V>, hash: K -> nat, capacity: nat, i: nat)
  {
    forall k :: MapGet(moved, k) == if Bucket(hash(k), capacity) < i then MapGet(m, k) else None
  }

  /** The keys of bucket `i` are not among those moved from the buckets before it. */
  lemma BucketKeysNotMoved<K(!new), V>(s: seq<seq<Entry<K, V>>>, hash: K -> nat, capacity: nat, m: map<K, V>,
                                       moved: map<K, V>, i: nat)
    requires Represents(s, hash, capacity, m) && i < |s| && MovedBelow(moved, m, hash, capacity, i)
    ensures KeysUnique(s[i])
    ensures forall t :: 0 <= t < |s[i]| ==> s[i][t].key !in moved
  {
    forall t | 0 <= t < |s[i]|
      ensures s[i][t].key !in moved
    {
      assert Bucket(hash(s[i][t].key), capacity) == i;
      assert MapGet(moved, s[i][t].key) == None;
    }
  }

  /** Moving bucket `i` extends the moved bindings to the keys that hash below `i + 1`. */
  lemma MovedThrough<K(!new), V>(s: seq<seq<Entry<K, V>>>, hash: K -> nat, capacity: nat, m: map<K, V>,
                                 moved: map<K, V>, moved': map<K, V>, i: nat)
    requires Represents(s, hash, capacity, m) && i < |s| && MovedBelow(moved, m, hash, capacity, i)
    requires Extends(moved', moved, s[i])
    ensures MovedBelow(moved', m, hash, capacity, i + 1)
  {
    forall k
      ensures MapGet(moved', k) == if Bucket(hash(k), capacity) < i + 1 then MapGet(m, k) else None
    {
      assert Lookup(s, hash, capacity, k) == MapGet(m, k);
      assert MapGet(moved, k) == if Bucket(hash(k), capacity) < i then MapGet(m, k) else None;
      if Bucket(hash(k), capacity) != i {
        forall t | 0 <= t < |s[i]|
          ensures s[i][t].key != k
        {
          assert Bucket(hash(s[i][t].key), capacity) == i;
        }
        ChainValueAbsent(s[i], k);
      }
    }
  }

  /** Set's step on values for a new key: its entry is prepended to bucket `b`. */
  lemma PrependStep<K(!new), V>(s: seq<seq<Entry<K, V>>>, hash: K -> nat, capacity: nat, m: map<K, V>,
                                e: Entry<K, V>, b: nat)
    requires Represents(s, hash, capacity, m) && e.key !in m
    requires b == Bucket(hash(e.key), capacity) && b < |s|
    ensures Represents(s[b := [e] + s[b]], hash, capacity, m[e.key := e.value])
    ensures NonEmpty(s[b := [e] + s[b]]) == NonEmpty(s) + (if s[b] == [] then 1 else 0)
    ensures |m[e.key := e.value]| == |m| + 1
  {
    PrependRepresents(s, hash, capacity, m, e);
    FlattenUpdate(s, b, [e] + s[b]);
  }

  /** Set's step on values for a present key: its entry `i` in bucket `b` is overwritten. */
  lemma OverwriteStep<K(!new), V>(s: seq<seq<Entry<K, V>>>, hash: K -> nat, capacity: nat, m: map<K, V>,
                                  e: Entry<K, V>, b: nat, i: nat)
    requires Represents(s, hash, capacity, m)
    requires b == Bucket(hash(e.key), capacity) && b < |s| && Find(s[b], e.key) == Some(i)
    ensures e.key in m && s[b][i] == Entry(e.key, m[e.key])
    ensures Represents(s[b := s[b][i := e]], hash, capacity, m[e.key := e.value])
    ensures NonEmpty(s[b := s[b][i := e]]) == NonEmpty(s)
    ensures |m[e.key := e.value]| == |m|
  {
    assert Lookup(s, hash, capacity, e.key) == MapGet(m, e.key);
    ChainValueAt(s[b], i);
    OverwriteRepresents(s, hash, capacity, m, e);
    FlattenUpdate(s, b, s[b][i := e]);
  }

  /** Remove's step on values: unlinking entry `i` of bucket `b`, the key's entry. */
  lemma UnlinkStep<K(!new), V>(s: seq<seq<Entry<K, V>>>, hash: K -> nat, capacity: nat, m: map<K, V>,
                               key: K, b: nat, i: nat)
    requires Represents(s, hash, capacity, m) && key in m
    requires b == Bucket(hash(key), capacity) && b < |s| && i < |s[b]| && s[b][i].key == key
    ensures Find(s[b], key) == Some(i) && s[b][i].value == m[key]
    ensures Represents(s[b := s[b][..i] + s[b][i + 1..]], hash, capacity, m - {key})
    ensures NonEmpty(s[b := s[b][..i] + s[b][i + 1..]]) == NonEmpty(s) - (if |s[b]| == 1 then 1 else 0)
  {
    assert Lookup(s, hash, capacity, key) == Some(m[key]);
    ChainValueAt(s[b], i);
    UnlinkRepresents(s, hash, capacity, m, key);
    FlattenUpdate(s, b, s[b][..i] + s[b][i + 1..]);
  }

  /** Every entry of a represented table is a binding of the map, and every binding of the
      map is an entry; as there are as many entries as keys, each key is visited once. */
  lemma EntriesAreBindings<K(!new), V>(s: seq<seq<Entry<K, V>>>, hash: K -> nat, capacity: nat, m: map<K, V>)
    requires Represents(s, hash, capacity, m)
    ensures |Flatten(s)| == |m|
    ensures forall e :: e in Flatten(s) ==> e.key in m && m[e.key] == e.value
    ensures forall k :: k in m ==> Entry(k, m[k]) in Flatten(s)
  {
    forall e | e in Flatten(s)
      ensures e.key in m && m[e.key] == e.value
    {
      FlattenMember(s, e);
      var b, t :| 0 <= b < |s| && 0 <= t < |s[b]| && s[b][t] == e;
      ChainValueAt(s[b], t);
      assert Lookup(s, hash, capacity, e.key) == Some(e.value);
    }
    forall k | k in m
      ensures Entry(k, m[k]) in Flatten(s)
    {
      assert Lookup(s, hash, capacity, k) == Some(m[k]);
      var b := Bucket(hash(k), capacity);
      var t := Find(s[b], k).value;
      FlattenMember(s, Entry(k, m[k]));
      assert s[b][t] == Entry(k, m[k]);
    }
  }

  /** The first result of `f` over `s` that is not None: what traverse returns. */
  function FirstSome<X, R>(s: seq<X>, f: X -> Option<R>): (r: Option<R>)
    ensures r.None? <==> forall i :: 0 <= i < |s| ==> f(s[i]).None?
  {
    if |s| == 0 then None
    else if f(s[0]).Some? then f(s[0])
    else
      assert forall i :: 1 <= i < |s| ==> s[i] == s[1..][i - 1];
      FirstSome(s[1..], f)
  }

  /** A result of FirstSome comes from the first element on which `f` answers. */
  lemma {:induction false} FirstSomeWitness<X, R>(s: seq<X>, f: X -> Option<R>) returns (i: nat)
    requires FirstSome(s, f).Some?
    ensures i < |s| && f(s[i]) == FirstSome(s, f)
    ensures forall j :: 0 <= j < i ==> f(s[j]).None?
  {
    if f(s[0]).Some? {
      i := 0;
    } else {
      var k := FirstSomeWitness(s[1..], f);
      i := k + 1;
      assert forall j :: 1 <= j <= i ==> s[j] == s[1..][j - 1];
    }
  }

  /** The first element on which `f` answers gives FirstSome's result. */
  lemma {:induction false} FirstSomeAt<X, R>(s: seq<X>, f: X -> Option<R>, i: nat)
    requires i < |s| && f(s[i]).Some? && forall j :: 0 <= j < i ==> f(s[j]).None?
    ensures FirstSome(s, f) == f(s[i])
  {
    if i > 0 {
      assert forall j :: 1 <= j <= i ==> s[j] == s[1..][j - 1];
      FirstSomeAt(s[1..], f, i - 1);
    }
  }

  lemma FirstSomeConcat<X, R>(a: seq<X>, b: seq<X>, f: X -> Option<R>)
    ensures FirstSome(a + b, f) == if FirstSome(a, f).Some? then FirstSome(a, f) else FirstSome(b, f)
  {
    var c := a + b;
    assert forall i :: 0 <= i < |a| ==> c[i] == a[i];
    assert forall i :: 0 <= i < |b| ==> c[|a| + i] == b[i];
    if FirstSome(a, f).Some? {
      var i := FirstSomeWitness(a, f);
      FirstSomeAt(c, f, i);
    } else if FirstSome(b, f).Some? {
      var i := FirstSomeWitness(b, f);
      FirstSomeAt(c, f, |a| + i);
    }
  }

  /** When `func` first answers on entry `j` of bucket `i`, that entry stands at position
      `|Flatten(s[..i])| + j` of the traversal order, no entry before it answered, and its
      answer is traverse's. */
  lemma VisitedBefore<K, V, R>(s: seq<seq<Entry<K, V>>>, i: nat, j: nat, func: Entry<K, V> -> Option<R>)
    requires i < |s| && j < |s[i]|
    requires FirstSome(Flatten(s[..i]) + s[i][..j], func) == None && func(s[i][j]).Some?
    ensures var n := |Flatten(s[..i])| + j;
            && n < |Flatten(s)| && Flatten(s)[n] == s[i][j]
            && FirstSome(Flatten(s)[..n], func) == None
            && FirstSome(Flatten(s), func) == func(s[i][j])
  {
    var prefix := Flatten(s[..i]) + s[i][..j];
    var rest := s[i][j..] + Flatten(s[i + 1..]);
    FlattenSplitAt(s, i, j);
    assert Flatten(s) == prefix + rest;
    assert Flatten(s)[..|prefix|] == prefix;
    FirstSomeConcat(prefix, rest, func);
  }

  /** The entries of all chains, cut before entry `j` of bucket `i`. */
  lemma FlattenSplitAt<K, V>(s: seq<seq<Entry<K, V>>>, i: nat, j: nat)
    requires i < |s| && j < |s[i]|
    ensures Flatten(s) == Flatten(s[..i]) + s[i][..j] + s[i][j..] + Flatten(s[i + 1..])
  {
    assert s == s[..i + 1] + s[i + 1..];
    FlattenConcat(s[..i + 1], s[i + 1..]);
    assert s[..i + 1][..i] == s[..i];
    assert s[i] == s[i][..j] + s[i][j..];
    assert Flatten(s[..i + 1]) == Flatten(s[..i]) + s[i][..j] + s[i][j..];
  }

  // Rounding to a power of two

  /** What upperPower2 returns for a 32-bit `n`: 0 when `n <= 0`, otherwise the power of two
      with as many binary digits as `n - 1`, wrapped to 32 bits. */
  function RoundUpPower2(n: int): (r: int)
    ensures IntMin <= r <= IntMax
  {
    if n <= 0 then 0 else Wrap32(Pow2(BitLength(n - 1)))
  }

  /** For 1 <= n <= 2^30 the result is the least power of two that is at least `n`; above
      2^30 the increment overflows to the most negative 32-bit value. */
  lemma RoundUpPower2IsLeastPower(n: int)
    requires IntMin <= n <= IntMax
    ensures n <= 0 ==> RoundUpPower2(n) == 0
    ensures 1 <= n <= 0x4000_0000 ==>
              var p := BitLength(n - 1);
              RoundUpPower2(n) == Pow2(p) && n <= Pow2(p) && (p == 0 || Pow2(p - 1) < n)
    ensures 0x4000_0000 < n ==> RoundUpPower2(n) == IntMin
  {
    Pow2Constants();
    if 1 <= n <= 0x4000_0000 {
      BitLengthBelow(n - 1, 30);
      Pow2Monotone(BitLength(n - 1), 30);
    } else if 0x4000_0000 < n {
      BitLengthExact(n - 1, 30);
    }
  }

  /** Before the first shift: the highest bit of `x` alone is set at or above bit p - 1. */
  lemma SmearStart(x: nat)
    requires x <= IntMax
    ensures var p := BitLength(x);
            p <= 31 && Pow2(p) - Pow2(p - Min(1, p)) <= x
  {
    var p := BitLength(x);
    Pow2Constants();
    BitLengthBelow(x, 31);
    if p > 0 {
      assert Pow2(p) == 2 * Pow2(p - 1);
    }
  }

  /** Once the shift reaches 32 every bit below the highest is set. */
  lemma SmearDone(x: nat, p: nat, shift: nat)
    requires p <= 31 && 32 <= shift
    requires Pow2(p) - Pow2(p - Min(shift, p)) <= x < Pow2(p)
    ensures x + 1 == Pow2(p)
  {
  }

  /** upperPower2: decrement, copy the highest set bit into every lower bit, then
      increment. */
  method UpperPower2(n: int) returns (r: int)
    requires IntMin <= n <= IntMax
    ensures r == RoundUpPower2(n)
  {
    if n <= 0 {
      return 0;
    }
    var x := Smear(n - 1);
    r := Wrap32(x + 1);
  }

  /** The loop of upperPower2: or-ing in shifts of 1, 2, 4, 8 and 16 sets every bit below
      the highest set bit of `x`, which leaves one less than the next power of two. */
  method Smear(x0: nat) returns (x: nat)
    requires x0 <= IntMax
    ensures x + 1 == Pow2(BitLength(x0))
  {
    x := x0;
    ghost var p := BitLength(x0);
    SmearStart(x0);
    var shift: nat := 1;
    while shift < 32
      invariant 1 <= shift
      invariant Pow2(p) - Pow2(p - Min(shift, p)) <= x < Pow2(p)
    {
      SmearStep(x, p, shift);
      x := Or(x, Shr(x, shift));
      shift := shift * 2;
    }
    SmearDone(x, p, shift);
  }

  // Creation

  /** The capacity a new table gets: `upperPower2(hint) - 1` when a hint is passed as the
      fifth argument and that is positive, otherwise the default capacity 63. */
  function InitialCapacity(numArgs: int, hint: int): (c: nat)
    ensures 0 < c <= IntMax
  {
    if numArgs < 5 then DefaultCapacity - 1
    else
      var c := Wrap32(RoundUpPower2(hint) - 1);
      if c > 0 then c else DefaultCapacity - 1
  }

  lemma InitialCapacityCases(numArgs: int, hint: int)
    requires IntMin <= hint <= IntMax
    ensures numArgs < 5 || hint <= 1 ==> InitialCapacity(numArgs, hint) == 63
    ensures numArgs >= 5 && 2 <= hint <= 0x4000_0000 ==>
              InitialCapacity(numArgs, hint) == RoundUpPower2(hint) - 1 && hint <= RoundUpPower2(hint) < 2 * hint
    ensures numArgs >= 5 && 0x4000_0000 < hint ==> InitialCapacity(numArgs, hint) == IntMax
  {
    RoundUpPower2IsLeastPower(hint);
    if 1 <= hint <= 0x4000_0000 {
      var p := BitLength(hint - 1);
      if p > 0 {
        assert Pow2(p) == 2 * Pow2(p - 1);
      }
    }
  }

  /** Every initial capacity has the form 2^e - 1. */
  lemma InitialCapacityForm(numArgs: int, hint: int) returns (e: nat)
    requires IntMin <= hint <= IntMax
    ensures InitialCapacity(numArgs, hint) == Pow2(e) - 1
  {
    Pow2Constants();
    InitialCapacityCases(numArgs, hint);
    if numArgs < 5 || hint <= 1 {
      e := 6;
    } else if hint <= 0x4000_0000 {
      e := BitLength(hint - 1);
      RoundUpPower2IsLeastPower(hint);
    } else {
      e := 31;
    }
  }

  /** The capacity as the code computes it: the `int` result is stored into the unsigned
      `size_t` capacity before the `<= 0` test, so that test only catches 0. */
  function InitialCapacityAsWritten(numArgs: int, hint: int): (c: nat)
    ensures 0 < c <= SizeMax
  {
    if numArgs < 5 then DefaultCapacity - 1
    else
      var u := Wrap32(RoundUpPower2(hint) - 1) % (SizeMax + 1);
      if u == 0 then DefaultCapacity - 1 else u
  }

  /** A non-positive hint makes upperPower2 return 0, so the capacity becomes SIZE_MAX and
      the bucket count `capacity + 1` wraps to 0, where the default was intended. */
  lemma NonPositiveHintAsWritten(numArgs: int, hint: int)
    requires numArgs >= 5 && IntMin <= hint <= 0
    ensures InitialCapacityAsWritten(numArgs, hint) == SizeMax
    ensures (InitialCapacityAsWritten(numArgs, hint) + 1) % (SizeMax + 1) == 0
    ensures InitialCapacity(numArgs, hint) == DefaultCapacity - 1
  {
  }

  /** lookupNode: walk the chain from its head to the first entry with an equal key. */
  method LookupNode<K(==), V>(chain: seq<Entry<K, V>>, key: K) returns (r: Option<nat>)
    ensures r == Find(chain, key)
  {
    var i := 0;
    while i < |chain|
      invariant 0 <= i <= |chain|
      invariant forall j :: 0 <= j < i ==> chain[j].key != key
    {
      if chain[i].key == key {
        return Some(i);
      }
      i := i + 1;
    }
    return None;
  }

  /** The number of buckets the growth step allocates, as written: the old capacity + 1. */
  function GrowthAllocationAsWritten(capacity: nat): nat
  {
    capacity + 1
  }

  /** Growing a table of capacity 2^e - 1 indexes the new buckets with 2^(e+1) - 1, so a key
      whose hash is 2^e goes to bucket 2^e, one past the buckets allocated as written. */
  lemma GrowthOverrunAsWritten(e: nat)
    ensures var capacity := Pow2(e) - 1;
            Bucket(Pow2(e), 2 * capacity + 1) == Pow2(e) >= GrowthAllocationAsWritten(capacity)
  {
    BucketIsRemainder(Pow2(e), e + 1);
    DivModUnique(Pow2(e), Pow2(e + 1), 0, Pow2(e));
  }

  class Hashtable<K(==,!new), V> {
    const hash: K -> nat
    var table: array<seq<Entry<K, V>>>
    var capacity: nat
    var size: nat
    var lists: nat
    /** `capacity == 2^exp - 1`. */
    ghost var exp: nat
    /** The map the buckets hold. */
    ghost var contents: map<K, V>
    /** How many `set` calls replaced the value of a present key: each still counted in `size`. */
    ghost var replaced: nat

    ghost predicate Sized()
      reads this
    {
      capacity == Pow2(exp) - 1 && table.Length == capacity + 1
    }

    /** The buckets hold `contents`. */
    ghost predicate Shaped()
      reads this, table
    {
      Sized() && Represents(table[..], hash, capacity, contents)
    }

    /** `lists` counts the non-empty buckets and `size` counts one per key plus one per
        replacing `set`. */
    ghost predicate Valid()
      reads this, table
    {
      Shaped() && lists == NonEmpty(table[..]) && size == |contents| + replaced
    }

    /** The allocation of an empty table (calloc of `capacity + 1` NULL bucket heads). */
    constructor (hash: K -> nat, capacity: nat, ghost exp: nat)
      requires capacity == Pow2(exp) - 1
      ensures Valid() && fresh(table) && this.hash == hash && this.capacity == capacity
      ensures contents == map[] && size == 0 && lists == 0 && replaced == 0
      ensures forall b :: 0 <= b < table.Length ==> table[b] == []
    {
      this.hash := hash;
      this.capacity := capacity;
      this.exp := exp;
      table := new seq<Entry<K, V>>[capacity + 1](_ => []);
      size := 0;
      lists := 0;
      contents := map[];
      replaced := 0;
      new;
      EmptyRepresents(table[..], hash, capacity);
    }

    /** The bucket of `key` is the remainder of its hash by the number of buckets. */
    lemma BucketOfKey(key: K)
      requires Sized()
      ensures Bucket(hash(key), capacity) == hash(key) % table.Length
    {
      BucketIsRemainder(hash(key), exp);
    }

    /** Every entry visited in traversal order is a binding of `contents`, and every binding
        is visited; there are as many entries as keys, so none is visited twice. */
    lemma Bindings()
      requires Shaped()
      ensures |Flatten(table[..])| == |contents|
      ensures forall e :: e in Flatten(table[..]) ==> e.key in contents && contents[e.key] == e.value
      ensures forall k :: k in contents ==> Entry(k, contents[k]) in Flatten(table[..])
    {
      EntriesAreBindings(table[..], hash, capacity, contents);
    }

    /** MaybeExpand: nothing happens while `size <= lists * 10`. Otherwise every entry moves
        into `2 * capacity + 1 + 1` new buckets by its hash, and `lists` is recounted. */
    method MaybeExpand()
      requires Valid()
      modifies this
      ensures Valid() && contents == old(contents) && size == old(size) && replaced == old(replaced)
      ensures old(size) <= old(lists) * MaxNodes ==>
                table == old(table) && capacity == old(capacity) && exp == old(exp) && lists == old(lists)
      ensures old(size) > old(lists) * MaxNodes ==>
                fresh(table) && capacity == 2 * old(capacity) + 1 && exp == old(exp) + 1
    {
      if size <= lists * MaxNodes {
        return;
      }
      var newCapacity := 2 * capacity + 1;
      var newTable, newLists := Rehash(newCapacity);
      table := newTable;
      capacity := newCapacity;
      lists := newLists;
      exp := exp + 1;
    }

    /** The loops of MaybeExpand: a new table of `newCapacity + 1` empty buckets, into which
        every chain is moved bucket by bucket. */
    method Rehash(newCapacity: nat) returns (newTable: array<seq<Entry<K, V>>>, newLists: nat)
      requires Shaped()
      ensures fresh(newTable) && newTable.Length == newCapacity + 1
      ensures Represents(newTable[..], hash, newCapacity, contents)
      ensures newLists == NonEmpty(newTable[..])
    {
      newTable := new seq<Entry<K, V>>[newCapacity + 1](_ => []);
      newLists := 0;
      EmptyRepresents(newTable[..], hash, newCapacity);
      ghost var moved: map<K, V> := map[];
      var i := 0;
      while i < table.Length
        invariant 0 <= i <= table.Length
        invariant fresh(newTable) && newTable.Length == newCapacity + 1
        invariant Represents(newTable[..], hash, newCapacity, moved) && newLists == NonEmpty(newTable[..])
        invariant MovedBelow(moved, contents, hash, capacity, i)
      {
        ghost var movedBefore := moved;
        if table[i] != [] {
          BucketKeysNotMoved(table[..], hash, capacity, contents, moved, i);
          newLists, moved := MoveChain(newTable, newCapacity, table[i], moved, newLists);
        }
        MovedThrough(table[..], hash, capacity, contents, movedBefore, moved, i);
        i := i + 1;
      }
      assert forall k :: MapGet(moved, k) == MapGet(contents, k);
      MapGetExtensional(moved, contents);
    }

    /** The inner loop of MaybeExpand: each entry of `chain`, head first, is prepended to its
        bucket in `newTable`, and `lists` counts the buckets this makes non-empty. */
    method MoveChain(newTable: array<seq<Entry<K, V>>>, newCapacity: nat, chain: seq<Entry<K, V>>,
                     ghost moved: map<K, V>, lists0: nat) returns (newLists: nat, ghost moved': map<K, V>)
      requires newTable.Length == newCapacity + 1
      requires Represents(newTable[..], hash, newCapacity, moved) && lists0 == NonEmpty(newTable[..])
      requires KeysUnique(chain) && forall t :: 0 <= t < |chain| ==> chain[t].key !in moved
      modifies newTable
      ensures Represents(newTable[..], hash, newCapacity, moved') && newLists == NonEmpty(newTable[..])
      ensures Extends(moved', moved, chain)
    {
      newLists, moved' := lists0, moved;
      ghost var filled := newTable[..];
      var j := 0;
      while j < |chain|
        invariant 0 <= j <= |chain| && newTable[..] == filled && |filled| == newCapacity + 1
        invariant Represents(filled, hash, newCapacity, moved') && newLists == NonEmpty(filled)
        invariant Extends(moved', moved, chain[..j])
      {
        var e := chain[j];
        var newBucket := Bucket(hash(e.key), newCapacity);
        MoveStep(filled, hash, newCapacity, moved, moved', chain, j);
        newLists := newLists + (if newTable[newBucket] == [] then 1 else 0);
        PrependAt(newTable, newBucket, e);
        filled := filled[newBucket := [e] + filled[newBucket]];
        moved' := moved'[e.key := e.value];
        j := j + 1;
      }
      assert chain[..j] == chain;
    }
  

    /** Prepends `e` to bucket `b` of `a`, leaving every other bucket as it was. */
    static method PrependAt(a: array<seq<Entry<K, V>>>, b: nat, e: Entry<K, V>)
      requires b < a.Length
      modifies a
      ensures a[..] == old(a[..])[b := [e] + old(a[b])]
    {
      a[b] := [e] + a[b];
    }

    /** The part of `set` after the growth check: a new key is prepended to its bucket and
        counted in `lists` when the bucket was empty; a present key's entry is overwritten in
        place after its old key and value go to the destructors (`freed`). Either way `size`
        grows by one. */
    method SetInBucket(key: K, value: V) returns (freed: Option<Entry<K, V>>)
      requires Valid()
      modifies this, table
      ensures Valid() && table == old(table) && capacity == old(capacity) && exp == old(exp)
      ensures contents == old(contents)[key := value] && size == old(size) + 1
      ensures key !in old(contents) ==> freed == None && replaced == old(replaced)
      ensures key in old(contents) ==>
                freed == Some(Entry(key, old(contents)[key])) && replaced == old(replaced) + 1
      ensures var b := Bucket(hash(key), capacity);
              && (forall j :: 0 <= j < table.Length && j != b ==> table[j] == old(table[j]))
              && (key !in old(contents) ==>
                    table[b] == [Entry(key, value)] + old(table[b]) &&
                    lists == old(lists) + (if old(table[b]) == [] then 1 else 0))
              && (key in old(contents) ==>
                    Find(old(table[b]), key).Some? &&
                    table[b] == old(table[b])[Find(old(table[b]), key).value := Entry(key, value)] &&
                    lists == old(lists))
    {
      var b := Bucket(hash(key), capacity);
      var node := LookupNode(table[b], key);
      assert Lookup(table[..], hash, capacity, key) == MapGet(contents, key);
      ghost var before := table[..];
      if node.None? {
        var c := [Entry(key, value)] + table[b];
        PrependStep(before, hash, capacity, contents, Entry(key, value), b);
        lists := lists + (if table[b] == [] then 1 else 0);
        table[b] := c;
        size := size + 1;
        contents := contents[key := value];
        freed := None;
      } else {
        var c := table[b][node.value := Entry(key, value)];
        OverwriteStep(before, hash, capacity, contents, Entry(key, value), b, node.value);
        freed := Some(table[b][node.value]);
        table[b] := c;
        size := size + 1;
        replaced := replaced + 1;
        contents := contents[key := value];
      }
      assert table[..] == before[b := table[b]];
    }

    /** AHashtableSet: grow when `size > lists * 10`, then map `key` to `value`. `pair` is the key and value
        the node holds afterwards, the pair the code returns; `freed` is the old pair handed
        to the destructors when the key was present. */
    method Set(key: K, value: V) returns (pair: Entry<K, V>, freed: Option<Entry<K, V>>)
      requires Valid()
      modifies this, table
      ensures pair == Entry(key, value) && pair in Flatten(table[..])
      ensures Valid() && contents == old(contents)[key := value] && size == old(size) + 1
      ensures key !in old(contents) ==> freed == None && replaced == old(replaced)
      ensures key in old(contents) ==>
                freed == Some(Entry(key, old(contents)[key])) && replaced == old(replaced) + 1
      ensures old(size) <= old(lists) * MaxNodes ==> table == old(table) && capacity == old(capacity)
      ensures old(size) > old(lists) * MaxNodes ==> fresh(table) && capacity == 2 * old(capacity) + 1
    {
      MaybeExpand();
      freed := SetInBucket(key, value);
      pair := Entry(key, value);
      Bindings();
      assert key in contents && contents[key] == value;
    }

    /** AHashtableGet: the value of the first entry with an equal key in the key's bucket,
        which is the value `key` is mapped to; None when there is none. */
    method Get(key: K) returns (r: Option<V>)
      requires Shaped()
      ensures r == MapGet(contents, key)
    {
      var b := Bucket(hash(key), capacity);
      var node := LookupNode(table[b], key);
      assert Lookup(table[..], hash, capacity, key) == MapGet(contents, key);
      if node.None? {
        return None;
      }
      r := Some(table[b][node.value].value);
    }

    /** AHashtableRemove of a present key: walk the bucket to the key's entry and unlink it
        from its predecessor or from the bucket head; its key and value go to the destructors. */
    method Remove(key: K) returns (freed: Entry<K, V>)
      requires Valid() && key in contents
      modifies this, table
      ensures Valid() && table == old(table) && capacity == old(capacity) && exp == old(exp)
      ensures contents == old(contents) - {key} && size == old(size) - 1 && replaced == old(replaced)
      ensures freed == Entry(key, old(contents)[key])
      ensures var b := Bucket(hash(key), capacity);
              && Find(old(table[b]), key).Some?
              && table[b] == old(table[b])[..Find(old(table[b]), key).value] +
                             old(table[b])[Find(old(table[b]), key).value + 1..]
              && lists == old(lists) - (if table[b] == [] then 1 else 0)
              && forall j :: 0 <= j < table.Length && j != b ==> table[j] == old(table[j])
    {
      var b := Bucket(hash(key), capacity);
      var chain := table[b];
      assert Lookup(table[..], hash, capacity, key) == Some(contents[key]);
      ghost var at := Find(chain, key).value;
      var current := 0;
      while chain[current].key != key
        invariant 0 <= current <= at
        decreases at - current
      {
        current := current + 1;
      }
      freed := chain[current];
      var c := chain[..current] + chain[current + 1..];
      ghost var before := table[..];
      UnlinkStep(before, hash, capacity, contents, key, b, current);
      if current == 0 {
        assert chain[1..] == c;
        table[b] := chain[1..];
      } else {
        table[b] := c;
      }
      assert table[..] == before[b := c];
      size := size - 1;
      lists := lists - (if table[b] == [] then 1 else 0);
      contents := contents - {key};
    }

    /** For a key that is not present the walk of Remove runs off the end of its bucket, so
        as written the unlink then dereferences the null `current`. */
    lemma AbsentKeyAsWritten(key: K)
      requires Shaped() && key !in contents
      ensures var b := Bucket(hash(key), capacity);
              b < table.Length && Find(table[b], key) == None
    {
      assert Lookup(table[..], hash, capacity, key) == None;
    }

    /** AHashtableRemove with the presence check the walk lacks: an absent key changes
        nothing and frees nothing. */
    method RemoveChecked(key: K) returns (freed: Option<Entry<K, V>>)
      requires Valid()
      modifies this, table
      ensures Valid() && table == old(table) && capacity == old(capacity)
      ensures contents == old(contents) - {key} && replaced == old(replaced)
      ensures key !in old(contents) ==> freed == None && size == old(size)
      ensures key in old(contents) ==> freed == Some(Entry(key, old(contents)[key])) && size == old(size) - 1
    {
      var b := Bucket(hash(key), capacity);
      var node := LookupNode(table[b], key);
      assert Lookup(table[..], hash, capacity, key) == MapGet(contents, key);
      if node.None? {
        assert contents - {key} == contents;
        return None;
      }
      var e := Remove(key);
      freed := Some(e);
    }

    /** AHashtableTraverse: call `func` on every entry, bucket by bucket and each chain from
        its head, and return the first result that is not None. `visits` counts the calls. */
    method Traverse<R>(func: Entry<K, V> -> Option<R>) returns (r: Option<R>, visits: nat)
      ensures r == FirstSome(Flatten(table[..]), func)
      ensures r.None? ==> visits == |Flatten(table[..])|
      ensures r.Some? ==> 0 < visits <= |Flatten(table[..])| && func(Flatten(table[..])[visits - 1]) == r
      ensures r.Some? ==> FirstSome(Flatten(table[..])[..visits - 1], func) == None
    {
      visits := 0;
      var i := 0;
      while i < table.Length
        invariant 0 <= i <= table.Length
        invariant FirstSome(Flatten(table[..i]), func) == None && visits == |Flatten(table[..i])|
      {
        var chain := table[i];
        var j := 0;
        while j < |chain|
          invariant 0 <= j <= |chain|
          invariant FirstSome(Flatten(table[..i]) + chain[..j], func) == None
          invariant visits == |Flatten(table[..i])| + j
        {
          var ret := func(chain[j]);
          visits := visits + 1;
          if ret.Some? {
            assert table[..][..i] == table[..i];
            VisitedBefore(table[..], i, j, func);
            return ret, visits;
          }
          FirstSomeConcat(Flatten(table[..i]) + chain[..j], [chain[j]], func);
          assert [chain[j]][1..] == [];
          assert Flatten(table[..i]) + chain[..j + 1] == Flatten(table[..i]) + chain[..j] + [chain[j]];
          j := j + 1;
        }
        assert chain[..j] == chain;
        assert table[..i + 1][..i] == table[..i];
        i := i + 1;
      }
      assert table[..i] == table[..];
      return None, visits;
    }

    /** AHashtableClear as written: every entry goes to the destructors and `size` becomes 0,
        but the bucket heads and `lists` are left as they were, so the freed entries are
        still reachable through the table. */
    method ClearAsWritten() returns (freed: seq<Entry<K, V>>)
      requires Valid()
      modifies this
      ensures Shaped() && freed == Flatten(table[..]) && size == 0
      ensures table == old(table) && capacity == old(capacity) && lists == old(lists)
      ensures contents == old(contents) && exp == old(exp)
    {
      freed := [];
      var i := 0;
      while i < table.Length
        invariant 0 <= i <= table.Length && freed == Flatten(table[..i])
      {
        if table[i] != [] {
          var chain := table[i];
          var j := 0;
          while j < |chain|
            invariant 0 <= j <= |chain| && freed == Flatten(table[..i]) + chain[..j]
          {
            freed := freed + [chain[j]];
            assert chain[..j + 1] == chain[..j] + [chain[j]];
            j := j + 1;
          }
          assert chain[..j] == chain;
        }
        assert table[..i + 1][..i] == table[..i];
        i := i + 1;
      }
      assert table[..i] == table[..];
      size := 0;
    }

    /** AHashtableClear with the resets its documentation promises: after freeing every
        entry the bucket heads are emptied and `lists` is reset too. */
    method Clear() returns (freed: seq<Entry<K, V>>)
      requires Valid()
      modifies this, table
      ensures Valid() && table == old(table) && capacity == old(capacity) && exp == old(exp)
      ensures freed == Flatten(old(table[..]))
      ensures contents == map[] && size == 0 && lists == 0 && replaced == 0
      ensures forall b :: 0 <= b < table.Length ==> table[b] == []
    {
      freed := ClearAsWritten();
      var i := 0;
      while i < table.Length
        invariant 0 <= i <= table.Length
        invariant forall b :: 0 <= b < i ==> table[b] == []
        modifies table
      {
        table[i] := [];
        i := i + 1;
      }
      lists := 0;
      contents := map[];
      replaced := 0;
      EmptyRepresents(table[..], hash, capacity);
    }
  }

  /** AHashtableCreate: null when the hash and comparison functions are not both passed;
      otherwise an empty table of `InitialCapacity(numArgs, hint) + 1` buckets. */
  method Create<K(==,!new), V>(numArgs: int, hash: K -> nat, hint: int) returns (t: Hashtable?<K, V>)
    requires IntMin <= hint <= IntMax
    ensures t == null <==> numArgs < 2
    ensures t != null ==> fresh(t) && fresh(t.table) && t.Valid() && t.hash == hash
    ensures t != null ==> t.capacity == InitialCapacity(numArgs, hint)
    ensures t != null ==> t.contents == map[] && t.size == 0 && t.lists == 0 && t.replaced == 0
    ensures t != null ==> forall b :: 0 <= b < t.table.Length ==> t.table[b] == []
  {
    if numArgs < 2 {
      return null;
    }
    var capacity: nat := DefaultCapacity - 1;
    if numArgs >= 5 {
      var p := UpperPower2(hint);
      var c := Wrap32(p - 1);
      if c > 0 {
        capacity := c;
      }
    }
    ghost var e := InitialCapacityForm(numArgs, hint);
    t := new Hashtable(hash, capacity, e);
  }

  /** A new table with one key set. */
  method SetOne<K(==,!new), V>(hash: K -> nat, k: K, v: V) returns (t: Hashtable<K, V>)
    ensures fresh(t) && fresh(t.table) && t.Valid()
    ensures t.contents == map[k := v] && t.replaced == 0 && t.size == 1
  {
    t := Create<K, V>(2, hash, 0);
    var _, _ := t.Set(k, v);
  }

  /** A new table with two distinct keys set. */
  method SetTwo<K(==,!new), V>(hash: K -> nat, k1: K, v1: V, k2: K, v2: V) returns (t: Hashtable<K, V>)
    requires k1 != k2
    ensures fresh(t) && fresh(t.table) && t.Valid()
    ensures t.contents == map[k1 := v1, k2 := v2] && t.replaced == 0
  {
    t := Create<K, V>(2, hash, 0);
    var _, _ := t.Set(k1, v1);
    var _, _ := t.Set(k2, v2);
  }

  /** Two keys set, both read back, a traversal that never stops early visits both, and
      removing both leaves nothing behind. */
  method SetGetTraverseRemove<K(==,!new), V>(hash: K -> nat, k1: K, v1: V, k2: K, v2: V)
    returns (got1: Option<V>, got2: Option<V>, visits: nat, gone: Option<V>, size: nat)
    requires k1 != k2
    ensures got1 == Some(v1) && got2 == Some(v2) && visits == 2 && gone == None && size == 0
  {
    var t := SetTwo(hash, k1, v1, k2, v2);
    assert |t.contents| == 2;
    got1 := t.Get(k1);
    got2 := t.Get(k2);
    t.Bindings();
    var stop: Option<bool>;
    stop, visits := t.Traverse(_ => None);
    gone := RemoveTwo(t, k1, k2);
    size := t.size;
  }

  /** Removing both keys of a two-key table empties it. */
  method RemoveTwo<K(==,!new), V>(t: Hashtable<K, V>, k1: K, k2: K) returns (gone: Option<V>)
    requires t.Valid() && k1 != k2 && t.contents.Keys == {k1, k2}
    modifies t, t.table
    ensures t.Valid() && t.contents == map[] && t.replaced == old(t.replaced) && gone == None
  {
    var _ := t.Remove(k1);
    assert k2 in t.contents;
    var _ := t.Remove(k2);
    assert t.contents.Keys == {};
    gone := t.Get(k1);
  }

  /** Setting a present key again replaces its value but still counts in `size`: two sets
      of one key leave one binding and a size of 2. */
  method ReplaceCountsInSize<K(==,!new), V>(hash: K -> nat, k: K, v1: V, v2: V)
    returns (freed: Option<Entry<K, V>>, got: Option<V>, size: nat, keys: nat)
    ensures freed == Some(Entry(k, v1)) && got == Some(v2) && size == 2 && keys == 1
  {
    var t := SetOne(hash, k, v1);
    var pair;
    pair, freed := t.Set(k, v2);
    got := t.Get(k);
    size := t.size;
    t.Bindings();
    var stop: Option<bool>;
    stop, keys := t.Traverse(_ => None);
  }

  /** With the clear as written, a key set before the clear is still found afterwards,
      although its entry went to the destructors. */
  method StaleEntryAfterClearAsWritten<K(==,!new), V>(hash: K -> nat, k: K, v: V)
    returns (freed: seq<Entry<K, V>>, got: Option<V>)
    ensures Entry(k, v) in freed && got == Some(v)
  {
    var t := SetOne(hash, k, v);
    t.Bindings();
    freed := t.ClearAsWritten();
    got := t.Get(k);
  }

  /** With a clear that also empties the buckets the same key is gone. */
  method NothingAfterClear<K(==,!new), V>(hash: K -> nat, k: K, v: V)
    returns (freed: seq<Entry<K, V>>, got: Option<V>)
    ensures freed == [Entry(k, v)] && got == None
  {
    var t := SetOne(hash, k, v);
    t.Bindings();
    freed := t.Clear();
    got := t.Get(k);
  }
}
