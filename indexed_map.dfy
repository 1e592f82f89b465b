/**
 * IndexedMap: an ordered key/value container whose entries can be reached by
 * key or by zero-based position, and whose key order can be changed
 * independently of the values.
 */
module IndexedMaps {
  import opened Wrappers
  import opened Seqs
  import opened Maps

  class IndexedMap<K(==,!new), V(==)> {
    /** `#keys`: the order of the keys. */
    var keys: seq<K>
    /** `#map`: the value stored under each key. */
    var entries: map<K, V>

    /** The order lists every stored key exactly once, and nothing else. */
    ghost predicate Valid()
      reads this
    {
      NoDup(keys) && Elems(keys) == entries.Keys
    }

    constructor ()
      ensures Valid() && keys == [] && entries == map[]
    {
      keys := [];
      entries := map[];
    }

    /** The `map` getter: a snapshot of the entries, one per listed key. */
    function Map(): (r: map<K, V>)
      reads this
      requires Valid()
      ensures |r| == Size()
      ensures forall i :: 0 <= i < |keys| ==> keys[i] in r && Get(keys[i]) == Some(r[keys[i]])
    {
      entries
    }

    /** The `keys` getter: a snapshot of the order, duplicate-free, listing only stored keys. */
    function Keys(): (r: seq<K>)
      reads this
      requires Valid()
      ensures r == keys
      ensures NoDup(r) && |r| == Size()
      ensures forall i :: 0 <= i < |r| ==> Has(r[i])
    {
      keys
    }

    /** Whether a key is stored; answered from the entries, it agrees with the order. */
    function Has(key: K): (b: bool)
      reads this
      requires Valid()
      ensures b <==> key in keys
    {
      key in entries
    }

    /** The number of entries, read off the length of the order. */
    function Size(): (n: nat)
      reads this
      requires Valid()
      ensures n == |entries|
    {
      NoDupCard(keys);
      |keys|
    }

    /** Whether `index` is a position of the order, that is, 0 <= index < Size(). */
    function HasIndex(index: int): (b: bool)
      reads this
      requires Valid()
      ensures b <==> 0 <= index < |entries|
    {
      NoDupCard(keys);
      index >= 0 && |keys| > index
    }

    /** The value stored under `key`, or None when the key is absent. */
    function Get(key: K): (r: Option<V>)
      reads this
      requires Valid()
      ensures r.Some? <==> key in keys
      ensures r.Some? ==> key in entries && r.value == entries[key]
    {
      if Has(key) then Some(entries[key]) else None
    }

    /** The value at a position: the value of the key listed there, or None off the order. */
    function GetByIndex(index: int): (r: Option<V>)
      reads this
      requires Valid()
      ensures r.Some? <==> HasIndex(index)
      ensures HasIndex(index) ==> r == Get(keys[index])
    {
      if HasIndex(index) then Some(entries[keys[index]]) else None
    }

    /** The distinct stored values, each once. */
    function Uniq(): (r: seq<V>)
      reads this
      requires Valid()
      ensures NoDup(r) && Elems(r) == entries.Values
    {
      ValuesAlongElems(keys, entries);
      Dedup(ValuesAlong(keys, entries))
    }

    /** `forEach`: the (value, key, index) triples the callback sees, in order. */
    method ForEach() returns (visits: seq<(V, K, nat)>)
      requires Valid()
      ensures |visits| == |keys|
      ensures forall i :: 0 <= i < |visits| ==> visits[i] == (entries[keys[i]], keys[i], i)
    {
      visits := [];
      var i := 0;
      while i < |keys|
        invariant 0 <= i <= |keys| && |visits| == i
        invariant forall j :: 0 <= j < i ==> visits[j] == (entries[keys[j]], keys[j], j)
      {
        visits := visits + [(entries[keys[i]], keys[i], i)];
        i := i + 1;
      }
    }

    /**
     * Insert or overwrite: a new key is appended to the order, an existing
     * key keeps its position; either way it now holds `value`.
     */
    method Set(key: K, value: V)
      requires Valid()
      modifies this
      ensures Valid()
      ensures entries == old(entries)[key := value]
      ensures keys == if key in old(entries) then old(keys) else old(keys) + [key]
      ensures Get(key) == Some(value)
      ensures forall k :: k != key ==> Get(k) == old(Get(k))
      ensures Size() == if old(Has(key)) then old(Size()) else old(Size()) + 1
    {
      if key !in entries {
        NoDupConcat(keys, [key]);
        ElemsConcat(keys, [key]);
        keys := keys + [key];
      }
      entries := entries[key := value];
    }

    /**
     * Delete a key from both the order and the entries; the other keys keep
     * their relative order. An absent key changes nothing.
     */
    method Remove(key: K)
      requires Valid()
      modifies this
      ensures Valid()
      ensures keys == Without(old(keys), key) && entries == old(entries) - {key}
      ensures !old(Has(key)) ==> keys == old(keys) && entries == old(entries)
      ensures old(Has(key)) ==> Size() == old(Size()) - 1
    {
      RemoveState(keys, entries, key);
      if key in entries {
        keys := Without(keys, key);
        entries := entries - {key};
      }
    }

    /**
     * `splice`-delete by position: the run of up to `count` keys starting at
     * `index` (a negative index counting from the end) leaves the order, and
     * their entries leave the map.
     */
    method RemoveAt(index: int, count: int := 1)
      requires Valid()
      modifies this
      ensures Valid()
      ensures keys == SpliceRest(old(keys), index, count)
      ensures entries == old(entries) - Elems(SpliceRun(old(keys), index, count))
    {
      ghost var before := keys;
      var start := SpliceStart(index, |keys|);
      var n := SpliceDeleteCount(count, start, |keys|);
      var removed := keys[start..start + n];
      SpliceRestElems(keys, index, count);
      keys := keys[..start] + keys[start + n..];
      var i := 0;
      while i < |removed|
        invariant 0 <= i <= |removed| && keys == SpliceRest(before, index, count)
        invariant entries == old(entries) - Elems(removed[..i])
      {
        DeleteNext(old(entries), removed, i);
        entries := entries - {removed[i]};
        i := i + 1;
      }
      assert removed[..i] == removed;
    }

    /**
     * Move-or-insert at a position: `key` is taken out of the order if it was
     * there, given `value`, and spliced back in at `index`.
     */
    method SetTo(index: int, key: K, value: V)
      requires Valid()
      modifies this
      ensures Valid()
      ensures keys == MoveTo(old(keys), index, key)
      ensures entries == old(entries)[key := value]
    {
      SetToStep(keys, entries, index, key, value);
      Remove(key);
      entries := entries[key := value];
      var at := SpliceStart(index, |keys|);
      keys := InsertAt(keys, at, key);
    }

    /**
     * Right-biased union: the order becomes this order followed by each
     * other container's order, keeping first occurrences only; each key takes
     * its value from the right-most container that holds it.
     */
    method Union(others: seq<IndexedMap<K, V>>)
      requires Valid()
      requires forall j :: 0 <= j < |others| ==> others[j].Valid()
      modifies this
      ensures Valid()
      ensures keys == Dedup(old(keys) + Flatten(old(KeysOf(others))))
      ensures entries == MergeAll([old(entries)] + old(MapsOf(others)))
      ensures |keys| >= old(|keys|) && keys[..old(|keys|)] == old(keys)
    {
      ghost var ks, ms := KeysOf(others), MapsOf(others);
      assert forall j :: 0 <= j < |ks| ==> Elems(ks[j]) == ms[j].Keys by {
        forall j | 0 <= j < |ks| ensures Elems(ks[j]) == ms[j].Keys {
          assert others[j].Valid();
        }
      }
      var newMap := entries;
      var newKeys := keys;
      var i := 0;
      while i < |others|
        invariant 0 <= i <= |others| && unchanged(this)
        invariant newMap == MergeAll([entries] + ms[..i])
        invariant newKeys == keys + Flatten(ks[..i])
      {
        UnionNext(keys, entries, ks, ms, i);
        newMap := newMap + others[i].entries;
        newKeys := newKeys + others[i].keys;
        i := i + 1;
      }
      assert newKeys == keys + Flatten(ks) && newMap == MergeAll([entries] + ms) by {
        assert ks[..i] == ks && ms[..i] == ms;
      }
      UnionState(keys, entries, ks, ms);
      entries := newMap;
      keys := Dedup(newKeys);
    }

    /**
     * Comparator sort of the order; the entries stay as they are. For a
     * comparator that never puts two stored entries each after the other,
     * no two neighbours end up out of order.
     */
    method Sort(cmp: (V, V, K, K) -> int)
      requires Valid()
      modifies this
      ensures Valid()
      ensures entries == old(entries)
      ensures multiset(keys) == multiset(old(keys))
      ensures Consistent(entries, cmp) ==> SortedBy(keys, entries, cmp)
    {
      var snapshot := entries;
      var inverted := (k1: K, k2: K) =>
        k1 in snapshot && k2 in snapshot && cmp(snapshot[k1], snapshot[k2], k1, k2) > 0;
      var sorted := SortBy(keys, inverted);
      PermutationKeepsNoDup(keys, sorted);
      if Consistent(entries, cmp) {
        assert Asymmetric(keys, inverted);
        forall i, j | 0 <= i && j == i + 1 && j < |sorted| ensures NotAfter(sorted, entries, cmp, i, j) {
          assert InOrderAt(sorted, i, inverted);
          assert sorted[i] in Elems(sorted) && sorted[i + 1] in Elems(sorted);
        }
      }
      keys := sorted;
    }
  }

  /** Deleting the keys of a run one by one deletes the keys of ever longer prefixes. */
  lemma DeleteNext<K, V>(m: map<K, V>, run: seq<K>, i: nat)
    requires i < |run|
    ensures m - Elems(run[..i]) - {run[i]} == m - Elems(run[..i + 1])
  {
    assert run[..i + 1] == run[..i] + [run[i]];
    ElemsConcat(run[..i], [run[i]]);
  }

  /**
   * The state `remove` reaches: filtering the key out of a duplicate-free
   * order that lists exactly the entries' keys drops exactly one key when it
   * is present and nothing when it is absent.
   */
  lemma RemoveState<K, V>(keys: seq<K>, entries: map<K, V>, key: K)
    requires NoDup(keys) && Elems(keys) == entries.Keys
    ensures Elems(Without(keys, key)) == (entries - {key}).Keys
    ensures key in entries ==> |Without(keys, key)| == |keys| - 1
    ensures key !in entries ==> Without(keys, key) == keys
  {
    if key in entries {
      var i :| 0 <= i < |keys| && keys[i] == key;
      WithoutAt(keys, i);
    } else {
      WithoutAbsent(keys, key);
    }
  }

  /**
   * The state `setTo` reaches: deleting `key`, giving it `value` and splicing
   * it back in at `index` moves it within the order and updates its entry.
   */
  lemma SetToStep<K, V>(keys: seq<K>, entries: map<K, V>, index: int, key: K, value: V)
    requires NoDup(keys) && Elems(keys) == entries.Keys
    ensures var rest := Without(keys, key);
      var moved := InsertAt(rest, SpliceStart(index, |rest|), key);
      && moved == MoveTo(keys, index, key)
      && NoDup(moved)
      && Elems(moved) == (entries - {key})[key := value].Keys
      && (entries - {key})[key := value] == entries[key := value]
  {
    var updated := entries[key := value];
    assert (entries - {key})[key := value] == updated by {
      assert (entries - {key})[key := value].Keys == updated.Keys;
    }
    assert updated.Keys == Elems(keys) + {key};
    MoveToSpec(keys, index, key);
  }

  /** One more container folded into the running merge and key concatenation. */
  lemma UnionNext<K, V>(keys: seq<K>, entries: map<K, V>, ks: seq<seq<K>>, ms: seq<map<K, V>>, i: nat)
    requires i < |ks| && i < |ms|
    ensures MergeAll([entries] + ms[..i + 1]) == MergeAll([entries] + ms[..i]) + ms[i]
    ensures keys + Flatten(ks[..i + 1]) == keys + Flatten(ks[..i]) + ks[i]
  {
    assert [entries] + ms[..i + 1] == ([entries] + ms[..i]) + [ms[i]];
    assert ks[..i + 1] == ks[..i] + [ks[i]];
    MergeAllSnoc([entries] + ms[..i], ms[i]);
    FlattenSnoc(ks[..i], ks[i]);
  }

  /**
   * The state `union` reaches: the de-duplicated concatenation of the key
   * orders keeps this order as its prefix and lists exactly the keys of the
   * merged entries.
   */
  lemma UnionState<K, V>(keys: seq<K>, entries: map<K, V>, ks: seq<seq<K>>, ms: seq<map<K, V>>)
    requires NoDup(keys) && Elems(keys) == entries.Keys
    requires |ks| == |ms| && forall j :: 0 <= j < |ks| ==> Elems(ks[j]) == ms[j].Keys
    ensures var merged := Dedup(keys + Flatten(ks));
      && NoDup(merged)
      && Elems(merged) == MergeAll([entries] + ms).Keys
      && |merged| >= |keys| && merged[..|keys|] == keys
  {
    FlattenMatchesMerge(ks, ms);
    ElemsConcat(keys, Flatten(ks));
    MergeAllCons(entries, ms);
    DedupPrefix(keys, Flatten(ks));
  }

  /** The key orders of several containers, left to right. */
  function KeysOf<K(==,!new), V(==)>(os: seq<IndexedMap<K, V>>): (r: seq<seq<K>>)
    reads set o | o in os
    ensures |r| == |os| && forall j :: 0 <= j < |os| ==> r[j] == os[j].keys
  {
    if os == [] then [] else KeysOf(os[..|os| - 1]) + [os[|os| - 1].keys]
  }

  /** The entries of several containers, left to right. */
  function MapsOf<K(==,!new), V(==)>(os: seq<IndexedMap<K, V>>): (r: seq<map<K, V>>)
    reads set o | o in os
    ensures |r| == |os| && forall j :: 0 <= j < |os| ==> r[j] == os[j].entries
  {
    if os == [] then [] else MapsOf(os[..|os| - 1]) + [os[|os| - 1].entries]
  }

  /**
   * The comparator never says, of two stored entries, that each belongs after
   * the other.
   */
  ghost predicate Consistent<K, V>(entries: map<K, V>, cmp: (V, V, K, K) -> int) {
    forall k1, k2 :: k1 in entries && k2 in entries && cmp(entries[k1], entries[k2], k1, k2) > 0 ==>
      cmp(entries[k2], entries[k1], k2, k1) <= 0
  }

  /** Every two neighbours of the order compare as "not after" by their values and keys. */
  ghost predicate SortedBy<K, V>(ks: seq<K>, entries: map<K, V>, cmp: (V, V, K, K) -> int) {
    forall i, j :: 0 <= i && j == i + 1 && j < |ks| ==> NotAfter(ks, entries, cmp, i, j)
  }

  /** Both keys are stored and the one at `i` does not compare as after the one at `j`. */
  ghost predicate NotAfter<K, V>(ks: seq<K>, entries: map<K, V>, cmp: (V, V, K, K) -> int, i: nat, j: nat)
    requires i < |ks| && j < |ks|
  {
    ks[i] in entries && ks[j] in entries && cmp(entries[ks[i]], entries[ks[j]], ks[i], ks[j]) <= 0
  }

  /**
   * With a transitive comparator, an order sorted by neighbours is sorted
   * pairwise: every key compares as "not after" every later key.
   */
  lemma {:induction false} SortedByPairwise<K, V>(ks: seq<K>, entries: map<K, V>, cmp: (V, V, K, K) -> int, i: nat, j: nat)
    requires SortedBy(ks, entries, cmp)
    requires forall a, b, c | 0 <= a < |ks| && 0 <= b < |ks| && 0 <= c < |ks| ::
      NotAfter(ks, entries, cmp, a, b) && NotAfter(ks, entries, cmp, b, c) ==> NotAfter(ks, entries, cmp, a, c)
    requires i < j < |ks|
    ensures NotAfter(ks, entries, cmp, i, j)
    decreases j - i
  {
    if i + 1 < j {
      SortedByPairwise(ks, entries, cmp, i + 1, j);
    }
  }
}
