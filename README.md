# IndexedMap in Dafny

A model of `IndexedMap`, an in-memory ordered key/value container. Each entry
can be reached by its key or by its zero-based position, and the order of the
keys can be changed without touching the values.

The container keeps two pieces of state, and the model keeps both as fields of
the class `IndexedMaps.IndexedMap`:

- `#map`, the value stored under each key, becomes `entries: map<K, V>`;
- `#keys`, the order of the keys, becomes `keys: seq<K>`.

The two must agree. The predicate `Valid()` states this: `keys` has no
duplicates, and its elements are exactly the keys of `entries`. Every
mutator requires `Valid()` and re-establishes it.

Mutators are methods with `modifies this`:

- `Set`, `Remove`, `RemoveAt`, `SetTo` and `Union` (the accumulating loop
  over the other containers) each state their whole new state in terms of
  the old one;
- `Sort` states the entries exactly, and the new order as a permutation of
  the old one with no two neighbours out of order.

The read-only queries are functions: `Has`, `HasIndex`, `Get`, `GetByIndex`,
`Size`, `Uniq`, and the `map`/`keys` getters. "Not found" is `Option.None`
rather than JavaScript's `null`.

The JavaScript array and object operations the container relies on are
modelled as functions on sequences and maps, and their properties are proved
as lemmas:

- module `Seqs`:
  - `filter` that drops one key (`Without`);
  - `splice` with ECMAScript's argument normalisation (`SpliceStart`,
    `SpliceDeleteCount`, `SpliceRun`, `SpliceRest`, `InsertAt`);
  - `[...new Set(xs)]` (`Dedup`);
  - array spread (`Flatten`);
  - a comparator sort (`SortBy`, an insertion sort).
- module `Maps`: object spread, a right-biased merge (`MergeAll`).

`splice` is modelled as the code calls it, for every integer index and count.
A negative index counts from the end. The start is clamped to `0 .. length`.
The delete count is clamped to `0 .. length - start`.

`removeAt` and `setTo` accept any integer index and count, and the model
clamps them as `splice` does (`SpliceStart`, `SpliceDeleteCount`). The
properties for in-range positions are proved as consequences of that model,
not assumed as preconditions.

## Model

| member | source | states |
|---|---|---|
| IndexedMaps.IndexedMap.constructor | IndexedMap.js:2-3 | A new container has an empty order and no entries, and satisfies the invariant. |
| IndexedMaps.IndexedMap.Map | IndexedMap.js:5-7 | The `map` getter holds as many entries as `size()`; every listed key is in it, with the value `get` returns. |
| IndexedMaps.IndexedMap.Keys | IndexedMap.js:9-11 | The `keys` getter returns the current order itself, which is duplicate-free, `size()` long, and lists only keys that `has` accepts. |
| IndexedMaps.IndexedMap.Set | IndexedMap.js:13-19 | A new key is appended to the order and the size grows by one. An existing key keeps its position and the size is unchanged. Afterwards `get(key)` is the new value and every other key's `get` is unchanged. The invariant is kept. |
| Seqs.AppendThenWithout | IndexedMap.js:15 | Pushing a key that was not in the order, then filtering it out, gives back the original order. |
| IndexedMaps.IndexedMap.Has | IndexedMap.js:21-23 | `has` is answered from the entries, and holds exactly when the key is listed in the order. |
| IndexedMaps.IndexedMap.HasIndex | IndexedMap.js:25-27 | True exactly when `0 <= index < size()`, including false for every negative index. |
| IndexedMaps.IndexedMap.Get | IndexedMap.js:29-31 | Returns a value exactly when the key is stored, and that value is the stored one. An absent key gives the not-found result. |
| IndexedMaps.IndexedMap.GetByIndex | IndexedMap.js:33-39 | Returns a value exactly when `hasIndex(index)` holds, and then it is `get(keys[index])`. Otherwise it gives the not-found result. |
| IndexedMaps.IndexedMap.Remove | IndexedMap.js:41-47 | A present key leaves both the order and the entries, and the size drops by one. An absent key changes nothing. The invariant is kept. |
| IndexedMaps.RemoveState | IndexedMap.js:42-44 | On a consistent state, filtering a key out drops exactly that key's entry from the listed set. It shortens the order by one when the key is present and changes nothing when it is absent. |
| Seqs.Without | IndexedMap.js:43 | Filtering out a key leaves exactly the other elements, keeps a duplicate-free order duplicate-free, and never lengthens it. |
| Seqs.WithoutAt | IndexedMap.js:43 | Filtering a present key out of a duplicate-free order leaves the keys before it followed by the keys after it, in their relative order, one shorter. |
| Seqs.WithoutAbsent | IndexedMap.js:43 | Filtering out a key that is not listed changes nothing. |
| IndexedMaps.IndexedMap.Size | IndexedMap.js:49-51 | The length of the order equals the number of entries. |
| Seqs.NoDupCard | IndexedMap.js:49-51 | A duplicate-free sequence has exactly as many distinct elements as its length. |
| IndexedMaps.IndexedMap.ForEach | IndexedMap.js:53-59 | Visits `(value, key, index)` once per position, in order, with `index` the position and `value` the entry of the key there. |
| IndexedMaps.IndexedMap.Union | IndexedMap.js:61-71 | The new entries are this container's entries merged right-biased with each other container's entries, left to right. The new order is the de-duplicated concatenation of all orders. This order is its prefix, so existing keys never move. The invariant is kept. |
| IndexedMaps.UnionNext | IndexedMap.js:64-67 | One loop step extends the running merge by the next container's entries, and the running concatenation by its keys. |
| IndexedMaps.UnionState | IndexedMap.js:68-69 | The de-duplicated concatenation is duplicate-free, keeps this order as its prefix, and lists exactly the keys of the merged entries. |
| Maps.MergeAll | IndexedMap.js:62-65 | Object spread of the containers' entries, left to right: every key of every merged map is in the result. |
| Maps.MergeAllKeys | IndexedMap.js:65 | A key is in the merge exactly when some merged container holds it. |
| Maps.MergeAllRightmost | IndexedMap.js:65 | A key's merged value comes from the right-most container that holds it. |
| Maps.MergeAllSnoc | IndexedMap.js:65 | Merging one more map on the right is one right-biased merge step. |
| Maps.MergeAllCons | IndexedMap.js:62-65 | Starting from this container's entries and merging the rest equals merging those entries with the merge of the rest. |
| Maps.FlattenMatchesMerge | IndexedMap.js:64-66 | When each order lists exactly its container's keys, the concatenated orders list exactly the merged keys. |
| Seqs.Flatten | IndexedMap.js:63-66 | Array spread of the key orders: every element of every order is in the result, and every element of the result comes from one of the orders. |
| Seqs.FlattenSnoc | IndexedMap.js:66 | Spreading one more order on the right appends it. |
| Seqs.FlattenCons | IndexedMap.js:63-66 | Spreading this order in front of the others gives this order followed by their concatenation. |
| Seqs.Dedup | IndexedMap.js:69 | `[...new Set(xs)]` is duplicate-free, holds exactly the elements of `xs`, and is never longer. |
| Seqs.DedupPrefix | IndexedMap.js:69 | De-duplicating a duplicate-free order followed by anything keeps that order as the prefix. |
| Seqs.DedupOfNoDup | IndexedMap.js:69 | De-duplicating a duplicate-free order gives it back unchanged. |
| Seqs.DedupFirstOccurrence | IndexedMap.js:69 | `[...new Set(xs)]` lists the distinct elements in the order of their first occurrences in `xs`: an earlier element of the result first occurs earlier in `xs`. |
| Seqs.FirstIndex | IndexedMap.js:69 | The first occurrence of a listed element: the element sits there and not anywhere before it. |
| Seqs.FirstIndexPrefix | IndexedMap.js:69 | An element of `a` first occurs in `a + b` where it first occurs in `a`. |
| IndexedMaps.IndexedMap.Uniq | IndexedMap.js:73-75 | The result is duplicate-free and its elements are exactly the stored values. |
| Maps.ValuesAlong | IndexedMap.js:74 | The stored values read along a key order: one per key, the value of the key at the same position. |
| Maps.ValuesAlongElems | IndexedMap.js:74 | Reading the values along an order that lists exactly the keys yields exactly the stored values. |
| IndexedMaps.IndexedMap.Sort | IndexedMap.js:77-84 | The entries are untouched and the new order is a permutation of the old one. For a comparator that never ranks two stored entries each after the other, no two neighbours are out of order. |
| Seqs.SortBy | IndexedMap.js:78-82 | The sort returns a permutation. If the comparator is asymmetric on the elements, no two neighbours of the result are inverted. |
| Seqs.Sink | IndexedMap.js:78-82 | One insertion step keeps a permutation and extends the ordered prefix by one element. |
| Seqs.PermutationKeepsNoDup | IndexedMap.js:78 | Reordering a duplicate-free order keeps it duplicate-free, with the same elements. |
| IndexedMaps.SortedByPairwise | IndexedMap.js:77-84 | With a transitive comparator, a neighbour-ordered order is ordered between every earlier key and every later key. |
| IndexedMaps.IndexedMap.SetTo | IndexedMap.js:95-100 | The entries are the old entries with `key` set to `value`. The order is the old order with `key` filtered out and spliced back in at `index`. The invariant is kept. |
| Seqs.MoveToSpec | IndexedMap.js:95-100 | After a move-or-insert the order is duplicate-free and holds the old keys plus `key`. Its length is unchanged if `key` was there and one longer otherwise. `key` sits at `index` whenever index lies between 0 and the length without it. |
| Seqs.MoveTo | IndexedMap.js:96-98 | `setTo`'s remove-then-splice on the order: `key` is listed afterwards, and the other keys keep their relative order, because filtering `key` out of the moved order gives the old order without it. |
| Seqs.MoveToTwice | IndexedMap.js:95-100 | Two moves of the same key equal one move to the second index, so repeating `setTo` never duplicates a key. |
| Seqs.InsertAt | IndexedMap.js:98 | `splice(i, 0, x)` puts `x` at position `i`, with the elements before `i` unchanged and the rest shifted right by one. |
| Seqs.InsertFresh | IndexedMap.js:98 | Inserting a key that is not listed keeps the order duplicate-free and adds exactly that key. |
| Seqs.WithoutInsertAt | IndexedMap.js:96-98 | Inserting an unlisted key and filtering it out again gives back the order. |
| Seqs.SpliceStart | IndexedMap.js:103 | The start of a splice lies in `0 .. length`. It is the index itself when that is in range, and `length + index` for a negative index that does not run past the front. |
| Seqs.SpliceDeleteCount | IndexedMap.js:103 | The delete count stays within the array. It is `count` itself when that fits, and 0 for a non-positive count or a start at the end. |
| Seqs.SpliceRun | IndexedMap.js:103 | For `0 <= index <= length` and `count >= 0`, the deleted run is `s[index .. min(index + count, length)]`. It is empty for a non-positive count or an index at or past the end. |
| Seqs.SpliceRest | IndexedMap.js:103 | What stays is as long as the array minus the run. For in-range arguments it is the part before `index` followed by the part after the run. It is the whole array for a non-positive count or an index at or past the end. |
| Seqs.SpliceRestElems | IndexedMap.js:103-106 | Cutting a run out of a duplicate-free order leaves a duplicate-free order holding exactly the keys not in the run. |
| IndexedMaps.IndexedMap.RemoveAt | IndexedMap.js:102-108 | The order becomes what the splice leaves, and exactly the keys of the deleted run leave the entries. The invariant is kept. |
| IndexedMaps.DeleteNext | IndexedMap.js:104-106 | Deleting the run's keys one by one deletes the keys of ever longer prefixes of the run. |

## Left out

- `sortIndexes` is not modelled. Its comparator calls `indexOf` on the array being sorted, so the result depends on the engine's sort algorithm.
- The engine's own sort algorithm and its stability are not modelled. `Sort` uses a verified insertion sort and promises only a permutation and neighbour order, not stability.
- IndexedMaps.IndexedMap.Sort: takes a required comparator. A call without one is not modelled; there the comparator yields `undefined`, which the sort reads as "equal", so nothing moves.
- The neighbour-order promise of `Sort` assumes the comparator never ranks two stored entries each after the other. Pairwise order additionally needs transitivity (`SortedByPairwise`).
- `forEach` callback effects are not modelled. `ForEach` returns the ordered `(value, key, index)` triples the callback would see.
- JavaScript key stringification through a plain object is not modelled. Neither are prototype-sensitive keys such as `"__proto__"`. Keys are one generic type compared by identity, so a numeric key `1` and a string key `"1"` are distinct here.
- IndexedMaps.IndexedMap.Uniq: promises the distinct values with no duplicates, but not their order. The model yields them in key order, while the code follows the property order of `Object.values`.
- `union` called with `null` or `undefined` among its arguments is not modelled. In the code, spreading their missing `keys` throws.
- `return this` chaining is not modelled; the mutators return nothing.
- When `null` is itself a stored value, it is ambiguous with the not-found result. The model avoids this by using `Option`.
- Indices that are not integers, such as fractions, `NaN` or strings passed to `splice` and `hasIndex`, are not modelled. Indices are integers.
- IndexedMaps.IndexedMap: the value type must support equality, because `Uniq` compares values. Values without equality, such as functions, which the code stores freely, are not modelled.
- The in-place array updates (`push`, `splice`, `sort` on `#keys`) are modelled as reassignments of the `keys` sequence field. Since `#keys` is private and the getters return copies, no aliasing is lost.
